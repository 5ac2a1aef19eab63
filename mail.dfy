/** AbstractMail: the sender address and the template file a mail class
    renders, derived from the class's own name. */
module Mail {
  import opened Common
  import Mjml

  const FROM_EMAIL := "noreply@hyperfbank.com"

  /** `getFromEmail()`: the same sender for every mail. */
  function GetFromEmail(): (from: string)
    ensures from == "noreply@hyperfbank.com"
  {
    FROM_EMAIL
  }

  // ---------------------------------------------------------------------------
  // Characters

  predicate IsUpper(c: char) {
    'A' <= c <= 'Z'
  }

  predicate IsLower(c: char) {
    'a' <= c <= 'z'
  }

  /** `strtolower` on one character: ASCII letters only. */
  function LowerChar(c: char): (d: char)
    ensures IsUpper(c) ==> IsLower(d)
    ensures !IsUpper(c) ==> d == c
  {
    if IsUpper(c) then (c as int - 'A' as int + 'a' as int) as char else c
  }

  function UpperChar(c: char): (d: char)
    ensures IsLower(c) ==> IsUpper(d)
    ensures !IsLower(c) ==> d == c
  {
    if IsLower(c) then (c as int - 'a' as int + 'A' as int) as char else c
  }

  /** `strtolower`. */
  function ToLower(s: string): (r: string)
    ensures |r| == |s|
    ensures forall i :: 0 <= i < |s| ==> r[i] == LowerChar(s[i])
    decreases |s|
  {
    if s == [] then [] else [LowerChar(s[0])] + ToLower(s[1..])
  }

  // ---------------------------------------------------------------------------
  // From class name to template name

  /** The position of the last `c` in `s`, if there is one (`strrpos`). */
  function LastIndexOf(s: string, c: char): (r: Option<nat>)
    ensures r.Some? ==> r.value < |s| && s[r.value] == c && forall j :: r.value < j < |s| ==> s[j] != c
    ensures r.None? ==> forall j :: 0 <= j < |s| ==> s[j] != c
    decreases |s|
  {
    if s == [] then None
    else if s[|s| - 1] == c then Some(|s| - 1)
    else LastIndexOf(s[..|s| - 1], c)
  }

  /** `substr($fullClassName, strrpos($fullClassName, '\\') + 1)`. Without a
      backslash `strrpos` gives `false`, which counts as 0, so the first
      character is cut off. */
  function ShortName(cls: string): (r: string)
    ensures LastIndexOf(cls, '\\').Some? ==>
              && '\\' !in r && |r| < |cls| && cls[|cls| - |r| - 1] == '\\' && cls[|cls| - |r|..] == r
    ensures LastIndexOf(cls, '\\').None? ==> r == (if cls == [] then [] else cls[1..])
  {
    match LastIndexOf(cls, '\\')
    case Some(k) => cls[k + 1..]
    case None => if cls == [] then [] else cls[1..]
  }

  predicate EndsWith(s: string, suffix: string) {
    |suffix| <= |s| && s[|s| - |suffix|..] == suffix
  }

  /** `preg_replace('/Mail$/', '', $name)`: without the `m` flag, `$` matches
      at the very end and just before a final newline. */
  function StripMailSuffix(s: string): (r: string)
    ensures EndsWith(s, "Mail") ==> r + "Mail" == s
    ensures !EndsWith(s, "Mail") && EndsWith(s, "Mail\n") ==>
              |r| == |s| - 4 && r[..|r| - 1] + "Mail\n" == s && r[|r| - 1] == '\n'
    ensures !EndsWith(s, "Mail") && !EndsWith(s, "Mail\n") ==> r == s
  {
    if EndsWith(s, "Mail") then s[..|s| - 4]
    else if EndsWith(s, "Mail\n") then s[..|s| - 5] + "\n"
    else s
  }

  /** A `-` before each upper-case letter. */
  function Dash(t: string): (r: string)
    decreases |t|
  {
    if t == [] then []
    else (if IsUpper(t[0]) then ['-', t[0]] else [t[0]]) + Dash(t[1..])
  }

  /** `preg_replace('/(?<!^)[A-Z]/', '-$0', $name)`: a `-` before every
      upper-case letter except one at the very start. */
  function Hyphenate(s: string): string {
    if s == [] then [] else [s[0]] + Dash(s[1..])
  }

  /** The template's base name for a fully qualified class name. */
  function TemplateName(cls: string): string {
    ToLower(Hyphenate(StripMailSuffix(ShortName(cls))))
  }

  const TEMPLATES_DIR := "/resources/mail/"

  /** `getTemplatePath()` for the class `cls` under the application's `basePath`. */
  function GetTemplatePath(basePath: string, cls: string): (path: string)
    // a `.mjml` file in the templates directory under the base path ...
    ensures |basePath| + |TEMPLATES_DIR| + 5 <= |path|
    ensures path[..|basePath|] == basePath && path[|basePath|..|basePath| + |TEMPLATES_DIR|] == TEMPLATES_DIR
    ensures EndsWith(path, ".mjml")
    // ... whose name holds no capital letter
    ensures forall i :: |basePath| + |TEMPLATES_DIR| <= i < |path| ==> !IsUpper(path[i])
  {
    var name := TemplateName(cls);
    TemplateNameIsLowerCase(cls);
    TemplatePathShape(basePath, name);
    basePath + TEMPLATES_DIR + name + ".mjml"
  }

  lemma TemplatePathShape(basePath: string, name: string)
    requires forall i :: 0 <= i < |name| ==> !IsUpper(name[i])
    ensures var path := basePath + TEMPLATES_DIR + name + ".mjml";
            && |basePath| + |TEMPLATES_DIR| + 5 <= |path|
            && path[..|basePath|] == basePath && path[|basePath|..|basePath| + |TEMPLATES_DIR|] == TEMPLATES_DIR
            && EndsWith(path, ".mjml")
            && forall i :: |basePath| + |TEMPLATES_DIR| <= i < |path| ==> !IsUpper(path[i])
  {
    var path := basePath + TEMPLATES_DIR + name + ".mjml";
    var start := |basePath| + |TEMPLATES_DIR|;
    assert path[start..] == name + ".mjml";
    forall i | start <= i < |path|
      ensures !IsUpper(path[i])
    {
      assert path[i] == (name + ".mjml")[i - start];
      if i - start >= |name| {
        assert ".mjml"[i - start - |name|] in ".mjml";
      }
    }
  }

  /** `renderTemplate()`: the mail's template rendered with its variables.
      The file system is the map `files` from path to content. */
  method RenderTemplate(basePath: string, cls: string, files: map<string, string>, variables: Mjml.Variables)
    returns (r: Outcome<string, string>)
    ensures GetTemplatePath(basePath, cls) !in files ==>
              r == Err("Email template not found: " + GetTemplatePath(basePath, cls))
    ensures GetTemplatePath(basePath, cls) in files ==>
              r == Ok(Mjml.Substitute(files[GetTemplatePath(basePath, cls)], variables))
  {
    var path := GetTemplatePath(basePath, cls);
    if path !in files {
      return Err("Email template not found: " + path);
    }
    r := Mjml.Render(path, Some(files[path]), variables);
  }

  // ---------------------------------------------------------------------------
  // Properties

  predicate NoUpper(t: string) {
    forall i :: 0 <= i < |t| ==> !IsUpper(t[i])
  }

  lemma {:induction false} DashWithoutUpper(t: string)
    requires NoUpper(t)
    ensures Dash(t) == t
    decreases |t|
  {
    if t != [] {
      DashWithoutUpper(t[1..]);
    }
  }

  lemma {:induction false} DashAppend(a: string, b: string)
    ensures Dash(a + b) == Dash(a) + Dash(b)
    decreases |a|
  {
    if a == [] {
      assert a + b == b;
    } else {
      assert (a + b)[0] == a[0];
      assert (a + b)[1..] == a[1..] + b;
      DashAppend(a[1..], b);
    }
  }

  lemma ToLowerWithoutUpper(t: string)
    requires NoUpper(t)
    ensures ToLower(t) == t
  {
  }

  /** `getTemplatePath` depends only on the part after the last backslash. */
  lemma {:induction false} LastBackslash(ns: string, name: string)
    requires '\\' !in name
    ensures LastIndexOf(ns + "\\" + name, '\\') == Some(|ns|)
    decreases |name|
  {
    if name != [] {
      var s := ns + "\\" + name;
      assert s[..|s| - 1] == ns + "\\" + name[..|name| - 1];
      LastBackslash(ns, name[..|name| - 1]);
    }
  }

  /** The short name of a namespaced class is the part after the last
      backslash. */
  lemma QualifiedShortName(ns: string, name: string)
    requires '\\' !in name
    ensures ShortName(ns + "\\" + name) == name
  {
    LastBackslash(ns, name);
    var s := ns + "\\" + name;
    assert s[|ns| + 1..] == name;
  }

  lemma StripsAppendedMail(p: string)
    ensures StripMailSuffix(p + "Mail") == p
  {
    var s := p + "Mail";
    assert s[|s| - 4..] == "Mail";
    assert s[..|s| - 4] == p;
  }

  /** The template name of `ns\\<name>Mail` is the lower-cased, hyphenated
      `<name>`. */
  lemma TemplateOfMailClass(ns: string, name: string)
    requires '\\' !in name
    ensures TemplateName(ns + "\\" + name + "Mail") == ToLower(Hyphenate(name))
  {
    assert ns + "\\" + name + "Mail" == ns + "\\" + (name + "Mail");
    QualifiedShortName(ns, name + "Mail");
    StripsAppendedMail(name);
  }

  /** Appending a capitalised word adds a `-` and the word. */
  lemma HyphenateWord(a: string, w: string)
    requires a != []
    requires w != [] && IsUpper(w[0]) && NoUpper(w[1..])
    ensures Hyphenate(a + w) == Hyphenate(a) + "-" + w
  {
    assert (a + w)[0] == a[0];
    assert (a + w)[1..] == a[1..] + w;
    DashAppend(a[1..], w);
    DashWord(w);
  }

  /** Two capitalised words, hyphenated. */
  lemma HyphenateTwo(w1: string, w2: string)
    requires w1 != [] && NoUpper(w1[1..])
    requires w2 != [] && IsUpper(w2[0]) && NoUpper(w2[1..])
    ensures Hyphenate(w1 + w2) == w1 + "-" + w2
  {
    DashWithoutUpper(w1[1..]);
    assert [w1[0]] + w1[1..] == w1;
    HyphenateWord(w1, w2);
  }

  /** Three capitalised words, hyphenated. */
  lemma HyphenateThree(w1: string, w2: string, w3: string)
    requires w1 != [] && NoUpper(w1[1..])
    requires w2 != [] && IsUpper(w2[0]) && NoUpper(w2[1..])
    requires w3 != [] && IsUpper(w3[0]) && NoUpper(w3[1..])
    ensures Hyphenate(w1 + w2 + w3) == w1 + "-" + w2 + "-" + w3
  {
    HyphenateTwo(w1, w2);
    HyphenateWord(w1 + w2, w3);
  }

  /** `strtolower` of a word with at most its first letter upper-case. */
  lemma LowerWord(w: string)
    requires w != [] && NoUpper(w[1..])
    ensures ToLower(w) == [LowerChar(w[0])] + w[1..]
  {
    ToLowerWithoutUpper(w[1..]);
    assert w == [w[0]] + w[1..];
    ToLowerAppend([w[0]], w[1..]);
  }

  /** `strtolower` across a `-` joining two texts. */
  lemma LowerJoin(a: string, b: string)
    ensures ToLower(a + "-" + b) == ToLower(a) + "-" + ToLower(b)
  {
    ToLowerAppend(a + "-", b);
    ToLowerAppend(a, "-");
    ToLowerWithoutUpper("-");
  }

  /** The template name of a mail class named by two words. */
  lemma TwoWordTemplate(ns: string, w1: string, w2: string)
    requires '\\' !in w1 + w2
    requires w1 != [] && NoUpper(w1[1..])
    requires w2 != [] && IsUpper(w2[0]) && NoUpper(w2[1..])
    ensures TemplateName(ns + "\\" + (w1 + w2) + "Mail") ==
            ([LowerChar(w1[0])] + w1[1..]) + "-" + ([LowerChar(w2[0])] + w2[1..])
  {
    TemplateOfMailClass(ns, w1 + w2);
    HyphenateTwo(w1, w2);
    LowerJoin(w1, w2);
    LowerWord(w1);
    LowerWord(w2);
  }

  /** The template name of a mail class named by three words. */
  lemma ThreeWordTemplate(ns: string, w1: string, w2: string, w3: string)
    requires '\\' !in w1 + w2 + w3
    requires w1 != [] && NoUpper(w1[1..])
    requires w2 != [] && IsUpper(w2[0]) && NoUpper(w2[1..])
    requires w3 != [] && IsUpper(w3[0]) && NoUpper(w3[1..])
    ensures TemplateName(ns + "\\" + (w1 + w2 + w3) + "Mail") ==
            ([LowerChar(w1[0])] + w1[1..]) + "-" + ([LowerChar(w2[0])] + w2[1..]) + "-" + ([LowerChar(w3[0])] + w3[1..])
  {
    TemplateOfMailClass(ns, w1 + w2 + w3);
    HyphenateThree(w1, w2, w3);
    LowerJoin(w1 + "-" + w2, w3);
    LowerJoin(w1, w2);
    LowerWord(w1);
    LowerWord(w2);
    LowerWord(w3);
  }

  /** The words of the mail class names: capitalised, lower-case after the
      first letter, and what `strtolower` makes of them. */
  lemma WithdrawWord(w: string)
    requires w == "Withdraw"
    ensures w != [] && IsUpper(w[0]) && NoUpper(w[1..]) && '\\' !in w
    ensures [LowerChar(w[0])] + w[1..] == "withdraw"
  {
    assert w[0] == 'W' && w[1..] == "ithdraw" && LowerChar('W') == 'w';
  }

  lemma ConfirmationWord(w: string)
    requires w == "Confirmation"
    ensures w != [] && IsUpper(w[0]) && NoUpper(w[1..]) && '\\' !in w
    ensures [LowerChar(w[0])] + w[1..] == "confirmation"
  {
    assert w[0] == 'C' && w[1..] == "onfirmation" && LowerChar('C') == 'c';
  }

  lemma ScheduleWord(w: string)
    requires w == "Schedule"
    ensures w != [] && IsUpper(w[0]) && NoUpper(w[1..]) && '\\' !in w
    ensures [LowerChar(w[0])] + w[1..] == "schedule"
  {
    assert w[0] == 'S' && w[1..] == "chedule" && LowerChar('S') == 's';
  }

  lemma ErrorWord(w: string)
    requires w == "Error"
    ensures w != [] && IsUpper(w[0]) && NoUpper(w[1..]) && '\\' !in w
    ensures [LowerChar(w[0])] + w[1..] == "error"
  {
    assert w[0] == 'E' && w[1..] == "rror" && LowerChar('E') == 'e';
  }

  /** `WithdrawConfirmationMail` renders `withdraw-confirmation.mjml`, in
      whatever namespace it is declared. */
  lemma ConfirmationTemplate(ns: string)
    ensures TemplateName(ns + "\\WithdrawConfirmationMail") == "withdraw-confirmation"
  {
    var w1, w2 := "Withdraw", "Confirmation";
    assert "withdraw" + "-" + "confirmation" == "withdraw-confirmation";
    assert ns + "\\WithdrawConfirmationMail" == ns + "\\" + (w1 + w2) + "Mail";
    WithdrawWord(w1);
    ConfirmationWord(w2);
    TwoWordTemplate(ns, w1, w2);
  }

  /** `WithdrawScheduleConfirmationMail` renders `withdraw-schedule-confirmation.mjml`. */
  lemma ScheduleConfirmationTemplate(ns: string)
    ensures TemplateName(ns + "\\WithdrawScheduleConfirmationMail") == "withdraw-schedule-confirmation"
  {
    var w1, w2, w3 := "Withdraw", "Schedule", "Confirmation";
    assert "withdraw" + "-" + "schedule" + "-" + "confirmation" == "withdraw-schedule-confirmation" by {}
    assert ns + "\\WithdrawScheduleConfirmationMail" == ns + "\\" + (w1 + w2 + w3) + "Mail" by {}
    WithdrawWord(w1);
    ScheduleWord(w2);
    ConfirmationWord(w3);
    ThreeWordTemplate(ns, w1, w2, w3);
  }

  /** `WithdrawScheduleErrorMail` renders `withdraw-schedule-error.mjml`. */
  lemma ScheduleErrorTemplate(ns: string)
    ensures TemplateName(ns + "\\WithdrawScheduleErrorMail") == "withdraw-schedule-error"
  {
    var w1, w2, w3 := "Withdraw", "Schedule", "Error";
    assert "withdraw" + "-" + "schedule" + "-" + "error" == "withdraw-schedule-error" by {}
    assert ns + "\\WithdrawScheduleErrorMail" == ns + "\\" + (w1 + w2 + w3) + "Mail" by {}
    WithdrawWord(w1);
    ScheduleWord(w2);
    ErrorWord(w3);
    ThreeWordTemplate(ns, w1, w2, w3);
  }

  /** A capitalised word gets a `-` in front and nothing else. */
  lemma DashWord(w: string)
    requires w != [] && IsUpper(w[0]) && NoUpper(w[1..])
    ensures Dash(w) == ['-'] + w
  {
    DashWithoutUpper(w[1..]);
  }

  /** No upper-case letter survives into the template name. */
  lemma TemplateNameIsLowerCase(cls: string)
    ensures forall i :: 0 <= i < |TemplateName(cls)| ==> !IsUpper(TemplateName(cls)[i])
  {
  }

  /** The file of a mail class `ns\NameMail` is the kebab-case name in the
      templates directory. */
  lemma MailClassPath(basePath: string, ns: string, name: string)
    requires '\\' !in name
    ensures GetTemplatePath(basePath, ns + "\\" + name + "Mail") ==
            basePath + "/resources/mail/" + ToLower(Hyphenate(name)) + ".mjml"
  {
    TemplateOfMailClass(ns, name);
  }

  lemma PathOfTemplate(basePath: string, cls: string, name: string)
    requires TemplateName(cls) == name
    ensures GetTemplatePath(basePath, cls) == basePath + "/resources/mail/" + name + ".mjml"
  {
  }


  /** The documented example: `WithdrawConfirmationMail` renders
      `withdraw-confirmation.mjml`. */
  lemma ConfirmationPath(basePath: string, ns: string)
    ensures GetTemplatePath(basePath, ns + "\\WithdrawConfirmationMail") ==
            basePath + "/resources/mail/" + "withdraw-confirmation" + ".mjml"
  {
    ConfirmationTemplate(ns);
    PathOfTemplate(basePath, ns + "\\WithdrawConfirmationMail", "withdraw-confirmation");
  }

  lemma ScheduleConfirmationPath(basePath: string, ns: string)
    ensures GetTemplatePath(basePath, ns + "\\WithdrawScheduleConfirmationMail") ==
            basePath + "/resources/mail/" + "withdraw-schedule-confirmation" + ".mjml"
  {
    ScheduleConfirmationTemplate(ns);
    PathOfTemplate(basePath, ns + "\\WithdrawScheduleConfirmationMail", "withdraw-schedule-confirmation");
  }

  lemma ScheduleErrorPath(basePath: string, ns: string)
    ensures GetTemplatePath(basePath, ns + "\\WithdrawScheduleErrorMail") ==
            basePath + "/resources/mail/" + "withdraw-schedule-error" + ".mjml"
  {
    ScheduleErrorTemplate(ns);
    PathOfTemplate(basePath, ns + "\\WithdrawScheduleErrorMail", "withdraw-schedule-error");
  }

  /** A class name without a namespace loses its first character: it is
      named as if it were `<namespace>\\<name without its first character>`. */
  lemma UnqualifiedLosesFirstChar(ns: string, name: string)
    requires name != [] && '\\' !in name
    ensures TemplateName(name + "Mail") == TemplateName(ns + "\\" + name[1..] + "Mail")
  {
    var cls := name + "Mail";
    assert cls[|name|..] == "Mail";
    assert '\\' !in "Mail";
    assert forall j :: 0 <= j < |cls| ==> cls[j] != '\\' by {
      forall j | 0 <= j < |cls| ensures cls[j] != '\\' {
        if j < |name| { assert cls[j] == name[j]; } else { assert cls[j] == "Mail"[j - |name|]; }
      }
    }
    assert ShortName(cls) == name[1..] + "Mail";
    assert ns + "\\" + name[1..] + "Mail" == ns + "\\" + (name[1..] + "Mail");
    QualifiedShortName(ns, name[1..] + "Mail");
  }

  /** So `WithdrawConfirmationMail` declared without a namespace would look
      for `ithdraw-confirmation.mjml`. */
  lemma UnqualifiedConfirmation(first: char)
    requires first != '\\'
    ensures TemplateName([first] + "ithdrawConfirmationMail") == "ithdraw-confirmation"
  {
    var w1, w2 := "ithdraw", "Confirmation";
    var name := [first] + (w1 + w2);
    assert "ithdraw" + "-" + "confirmation" == "ithdraw-confirmation";
    assert [first] + "ithdrawConfirmationMail" == name + "Mail";
    assert name[1..] == w1 + w2;
    assert w1[0] == 'i' && w1[1..] == "thdraw" && NoUpper("thdraw") && '\\' !in w1;
    assert [LowerChar(w1[0])] + w1[1..] == "ithdraw";
    ConfirmationWord(w2);
    UnqualifiedLosesFirstChar([], name);
    TwoWordTemplate([], w1, w2);
  }

  /** Only a trailing "Mail" goes: one inside the name or at its start stays. */
  lemma OnlyTheSuffixIsStripped()
    ensures StripMailSuffix("MailerMail") == "Mailer"
    ensures StripMailSuffix("Mailing") == "Mailing"
    ensures StripMailSuffix("Mail") == ""
  {
    assert "Mailing"[3..] != "Mail";
    assert "Mailing"[2..] != "Mail\n";
  }

  /** Reading a template name back: drop each `-` and capitalise the letter
      after it and the first letter. */
  function UnDash(t: string): string
    decreases |t|
  {
    if t == [] then []
    else if t[0] == '-' && |t| >= 2 then [UpperChar(t[1])] + UnDash(t[2..])
    else [t[0]] + UnDash(t[1..])
  }

  function Pascal(k: string): string {
    if k == [] then [] else [UpperChar(k[0])] + UnDash(k[1..])
  }

  predicate IsLetters(s: string) {
    forall i :: 0 <= i < |s| ==> IsUpper(s[i]) || IsLower(s[i])
  }

  lemma {:induction false} UnDashUndoesDash(t: string)
    requires IsLetters(t)
    ensures UnDash(ToLower(Dash(t))) == t
    decreases |t|
  {
    if t != [] {
      var head := if IsUpper(t[0]) then ['-', t[0]] else [t[0]];
      assert Dash(t) == head + Dash(t[1..]);
      ToLowerAppend(head, Dash(t[1..]));
      UnDashUndoesDash(t[1..]);
      if IsUpper(t[0]) {
        assert ToLower(Dash(t))[2..] == ToLower(Dash(t[1..]));
      } else {
        assert ToLower(Dash(t))[1..] == ToLower(Dash(t[1..]));
      }
    }
  }

  lemma ToLowerAppend(a: string, b: string)
    ensures ToLower(a + b) == ToLower(a) + ToLower(b)
  {
    assert forall i :: 0 <= i < |a + b| ==> ToLower(a + b)[i] == (ToLower(a) + ToLower(b))[i];
  }

  /** For a PascalCase name of ASCII letters, the template name determines
      the class name: capitalising after each `-` gives it back. */
  lemma {:induction false} PascalUndoesKebab(s: string)
    requires IsLetters(s) && s != [] && IsUpper(s[0])
    ensures Pascal(ToLower(Hyphenate(s))) == s
  {
    ToLowerAppend([s[0]], Dash(s[1..]));
    UnDashUndoesDash(s[1..]);
    assert ToLower(Hyphenate(s))[1..] == ToLower(Dash(s[1..]));
  }
}
