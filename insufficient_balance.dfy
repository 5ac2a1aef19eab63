/** InsufficientBalanceException: the domain error raised when an account's
    balance does not cover a withdraw. It carries a message, the HTTP-style
    code 400 that its constructor always passes to its parent, and the two
    amounts (in cents) that were compared. */
module InsufficientBalance {

  const DEFAULT_MESSAGE := "Insufficient balance"

  /** The code the constructor hands to its parent exception, whatever the message. */
  const CODE := 400

  datatype Exception = Exception(message: string, balance: int, requested: int) {

    function GetMessage(): string {
      message
    }

    function GetCode(): int {
      CODE
    }

    function GetBalance(): int {
      balance
    }

    function GetRequested(): int {
      requested
    }
  }

  /** `new InsufficientBalanceException($message, $balance, $requested)`, with
      the constructor's defaults for omitted arguments. */
  function New(message: string := DEFAULT_MESSAGE, balance: int := 0, requested: int := 0): (e: Exception)
    ensures e.GetMessage() == message
    ensures e.GetBalance() == balance && e.GetRequested() == requested
    ensures e.GetCode() == 400
  {
    Exception(message, balance, requested)
  }

  /** With no arguments the exception says 'Insufficient balance' and carries zero amounts. */
  lemma Defaults()
    ensures New().GetMessage() == "Insufficient balance"
    ensures New().GetBalance() == 0 && New().GetRequested() == 0
    ensures New().GetCode() == 400
  {
  }

  /** The getters give back exactly the constructor's arguments, so two
      exceptions built from different arguments are different. */
  lemma ConstructorIsInjective(m1: string, b1: int, r1: int, m2: string, b2: int, r2: int)
    requires New(m1, b1, r1) == New(m2, b2, r2)
    ensures m1 == m2 && b1 == b2 && r1 == r2
  {
  }
}
