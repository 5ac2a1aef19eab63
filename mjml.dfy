/** MjmlService::render: reads an MJML template and substitutes `{{key}}`
    placeholders, one variable after another, with HTML-escaped values. The
    compilation of the substituted MJML to HTML by the external `mjml` binary
    is not part of this model: `Render` gives the text that is handed to it. */
module Mjml {
  import opened Common

  // ---------------------------------------------------------------------------
  // htmlspecialchars($value, ENT_QUOTES, 'UTF-8')

  /** The characters `htmlspecialchars` rewrites when quotes are included. */
  predicate IsSpecial(c: char) {
    c == '&' || c == '<' || c == '>' || c == '"' || c == '\''
  }

  function EscapeChar(c: char): (e: string)
    ensures IsSpecial(c) ==> |e| > 1 && e[0] == '&' && e[|e| - 1] == ';'
    ensures !IsSpecial(c) ==> e == [c]
  {
    match c
    case '&' => "&amp;"
    case '<' => "&lt;"
    case '>' => "&gt;"
    case '"' => "&quot;"
    case '\'' => "&#039;"
    case _ => [c]
  }

  /** `htmlspecialchars` with `ENT_QUOTES`: the value as HTML text. */
  function HtmlEscape(s: string): (r: string)
    ensures |r| >= |s|
    decreases |s|
  {
    if s == [] then [] else EscapeChar(s[0]) + HtmlEscape(s[1..])
  }

  predicate StartsWith(r: string, p: string) {
    |p| <= |r| && r[..|p|] == p
  }

  /** Reading HTML text back: the five entities `htmlspecialchars` writes
      become their characters again. */
  function HtmlUnescape(r: string): string
    decreases |r|
  {
    if r == [] then []
    else if StartsWith(r, "&amp;") then "&" + HtmlUnescape(r[5..])
    else if StartsWith(r, "&lt;") then "<" + HtmlUnescape(r[4..])
    else if StartsWith(r, "&gt;") then ">" + HtmlUnescape(r[4..])
    else if StartsWith(r, "&quot;") then "\"" + HtmlUnescape(r[6..])
    else if StartsWith(r, "&#039;") then "'" + HtmlUnescape(r[6..])
    else [r[0]] + HtmlUnescape(r[1..])
  }

  lemma Mismatch(r: string, p: string, k: nat)
    requires k < |r| && k < |p| && r[k] != p[k]
    ensures !StartsWith(r, p)
  {
  }

  lemma {:induction false} EscapeAppend(a: string, b: string)
    ensures HtmlEscape(a + b) == HtmlEscape(a) + HtmlEscape(b)
    decreases |a|
  {
    if a == [] {
      assert a + b == b;
    } else {
      assert (a + b)[0] == a[0];
      assert (a + b)[1..] == a[1..] + b;
      EscapeAppend(a[1..], b);
    }
  }

  /** Unescaping reads one escaped character back. */
  lemma UnescapeHead(c: char, rest: string)
    ensures HtmlUnescape(EscapeChar(c) + rest) == [c] + HtmlUnescape(rest)
  {
    var r := EscapeChar(c) + rest;
    if c == '&' {
      assert r[..5] == "&amp;" && r[5..] == rest;
    } else if c == '<' {
      Mismatch(r, "&amp;", 1);
      assert r[..4] == "&lt;" && r[4..] == rest;
    } else if c == '>' {
      Mismatch(r, "&amp;", 1);
      Mismatch(r, "&lt;", 1);
      assert r[..4] == "&gt;" && r[4..] == rest;
    } else if c == '"' {
      Mismatch(r, "&amp;", 1);
      Mismatch(r, "&lt;", 1);
      Mismatch(r, "&gt;", 1);
      assert r[..6] == "&quot;" && r[6..] == rest;
    } else if c == '\'' {
      Mismatch(r, "&amp;", 1);
      Mismatch(r, "&lt;", 1);
      Mismatch(r, "&gt;", 1);
      Mismatch(r, "&quot;", 1);
      assert r[..6] == "&#039;" && r[6..] == rest;
    } else {
      Mismatch(r, "&amp;", 0);
      Mismatch(r, "&lt;", 0);
      Mismatch(r, "&gt;", 0);
      Mismatch(r, "&quot;", 0);
      Mismatch(r, "&#039;", 0);
      assert r[1..] == rest;
    }
  }

  /** Unescaping undoes escaping: a substituted value is shown exactly. */
  lemma {:induction false} UnescapeEscape(s: string)
    ensures HtmlUnescape(HtmlEscape(s)) == s
    decreases |s|
  {
    if s != [] {
      UnescapeHead(s[0], HtmlEscape(s[1..]));
      UnescapeEscape(s[1..]);
    }
  }

  /** No raw markup character survives escaping; every `&` left begins an
      entity. */
  lemma {:induction false} EscapedHasNoMarkup(s: string)
    ensures forall i :: 0 <= i < |HtmlEscape(s)| ==> HtmlEscape(s)[i] !in {'<', '>', '"', '\''}
    decreases |s|
  {
    if s != [] {
      EscapedHasNoMarkup(s[1..]);
      var e, rest := EscapeChar(s[0]), HtmlEscape(s[1..]);
      assert HtmlEscape(s) == e + rest;
      forall i | 0 <= i < |e + rest| ensures (e + rest)[i] !in {'<', '>', '"', '\''} {
        if i >= |e| {
          assert (e + rest)[i] == rest[i - |e|];
        }
      }
    }
  }

  /** Text without special characters is left as it is. */
  lemma {:induction false} EscapePlain(s: string)
    requires forall i :: 0 <= i < |s| ==> !IsSpecial(s[i])
    ensures HtmlEscape(s) == s
    decreases |s|
  {
    if s != [] {
      EscapePlain(s[1..]);
    }
  }

  // ---------------------------------------------------------------------------
  // str_replace($search, $replace, $subject)

  /** `pat` occurs in `s` starting at `i`. */
  predicate OccursAt(pat: string, s: string, i: int) {
    0 <= i && i + |pat| <= |s| && s[i..i + |pat|] == pat
  }

  ghost predicate Occurs(pat: string, s: string) {
    exists i :: OccursAt(pat, s, i)
  }

  /** `str_replace`: the occurrences of `pat` found scanning left to right,
      never overlapping, each replaced by `rep`; the replacement text is not
      scanned again. */
  function ReplaceAll(s: string, pat: string, rep: string): string
    requires pat != []
    decreases |s|
  {
    if |s| < |pat| then s
    else if s[..|pat|] == pat then rep + ReplaceAll(s[|pat|..], pat, rep)
    else [s[0]] + ReplaceAll(s[1..], pat, rep)
  }

  /** Without an occurrence nothing is replaced. */
  lemma {:induction false} ReplaceAbsent(s: string, pat: string, rep: string)
    requires pat != [] && !Occurs(pat, s)
    ensures ReplaceAll(s, pat, rep) == s
    decreases |s|
  {
    if |s| >= |pat| {
      assert !OccursAt(pat, s, 0);
      assert !Occurs(pat, s[1..]) by {
        forall i | OccursAt(pat, s[1..], i) ensures false {
          assert s[1..][i..i + |pat|] == s[i + 1..i + 1 + |pat|];
          assert OccursAt(pat, s, i + 1);
        }
      }
      ReplaceAbsent(s[1..], pat, rep);
    }
  }

  /** Replacing a pattern by itself changes nothing. */
  lemma {:induction false} ReplaceBySelf(s: string, pat: string)
    requires pat != []
    ensures ReplaceAll(s, pat, pat) == s
    decreases |s|
  {
    if |s| >= |pat| {
      if s[..|pat|] == pat {
        ReplaceBySelf(s[|pat|..], pat);
        assert s == s[..|pat|] + s[|pat|..];
      } else {
        ReplaceBySelf(s[1..], pat);
      }
    }
  }

  /** Text that cannot start the pattern is copied through unchanged. */
  lemma {:induction false} ReplaceSkips(a: string, b: string, pat: string, rep: string)
    requires pat != [] && pat[0] !in a
    ensures ReplaceAll(a + b, pat, rep) == a + ReplaceAll(b, pat, rep)
    decreases |a|
  {
    if a == [] {
      assert a + b == b;
    } else {
      var s := a + b;
      assert s[0] == a[0] != pat[0];
      assert |s| >= |pat| ==> s[..|pat|] != pat;
      assert s[1..] == a[1..] + b;
      ReplaceSkips(a[1..], b, pat, rep);
    }
  }

  /** A pattern at the start is replaced. */
  lemma ReplaceLeading(pat: string, b: string, rep: string)
    requires pat != []
    ensures ReplaceAll(pat + b, pat, rep) == rep + ReplaceAll(b, pat, rep)
  {
    assert (pat + b)[..|pat|] == pat;
    assert (pat + b)[|pat|..] == b;
  }

  // ---------------------------------------------------------------------------
  // render()

  /** `"{{" . $key . "}}"`. */
  function Placeholder(key: string): (p: string)
    ensures |p| == |key| + 4 && p[0] == '{'
  {
    "{{" + key + "}}"
  }

  /** The template variables in the order the array iterates them. */
  type Variables = seq<(string, string)>

  /** The template text after the loop has handled `vars`, in order: each
      step works on the text the previous steps produced. */
  function Substitute(text: string, vars: Variables): string
    decreases |vars|
  {
    if vars == [] then text
    else
      var (key, value) := vars[|vars| - 1];
      ReplaceAll(Substitute(text, vars[..|vars| - 1]), Placeholder(key), HtmlEscape(value))
  }

  function NotFound(templatePath: string): string {
    "MJML template not found: " + templatePath
  }

  /** `render($templatePath, $variables)` up to the compilation step. The file
      system is a parameter: `template` is the file's content, or `None` when
      `file_exists` is false. */
  method Render(templatePath: string, template: Option<string>, variables: Variables)
    returns (r: Outcome<string, string>)
    ensures template.None? ==> r == Err(NotFound(templatePath))
    ensures template.Some? ==> r == Ok(Substitute(template.value, variables))
  {
    if template.None? {
      return Err(NotFound(templatePath));
    }
    var mjml := template.value;
    var i := 0;
    while i < |variables|
      invariant 0 <= i <= |variables|
      invariant mjml == Substitute(template.value, variables[..i])
    {
      var (key, value) := variables[i];
      assert variables[..i + 1][..i] == variables[..i];
      mjml := ReplaceAll(mjml, Placeholder(key), HtmlEscape(value));
      i := i + 1;
    }
    assert variables[..i] == variables;
    return Ok(mjml);
  }

  /** A template that mentions none of the variables' placeholders comes out
      unchanged; in particular placeholders of other keys stay as written. */
  lemma {:induction false} UnknownPlaceholdersStay(text: string, vars: Variables)
    requires forall i :: 0 <= i < |vars| ==> !Occurs(Placeholder(vars[i].0), text)
    ensures Substitute(text, vars) == text
    decreases |vars|
  {
    if vars != [] {
      var (key, value) := vars[|vars| - 1];
      UnknownPlaceholdersStay(text, vars[..|vars| - 1]);
      ReplaceAbsent(text, Placeholder(key), HtmlEscape(value));
    }
  }

  /** Later keys see the text earlier replacements produced: a value that is
      itself a placeholder of a later key gets replaced again. */
  lemma ChainedSubstitution(a: string, b: string, value: string)
    requires forall i :: 0 <= i < |b| ==> !IsSpecial(b[i])
    ensures Substitute(Placeholder(a), [(a, Placeholder(b)), (b, value)]) == HtmlEscape(value)
  {
    var vars := [(a, Placeholder(b)), (b, value)];
    assert vars[..1] == [(a, Placeholder(b))] && vars[..1][..0] == [];
    assert Placeholder(b) == "{{" + b + "}}";
    EscapePlain("{{" + b + "}}");
    ReplaceLeading(Placeholder(a), [], Placeholder(b));
    assert Placeholder(a) + [] == Placeholder(a);
    assert Substitute(Placeholder(a), vars[..1]) == Placeholder(b);
    ReplaceLeading(Placeholder(b), [], HtmlEscape(value));
    assert Placeholder(b) + [] == Placeholder(b);
  }

  /** A value that carries markup is inserted as text, not as markup. */
  lemma ValueIsEscaped(before: string, key: string, after: string, value: string)
    requires '{' !in before && !Occurs(Placeholder(key), after)
    ensures Substitute(before + Placeholder(key) + after, [(key, value)]) == before + HtmlEscape(value) + after
  {
    var vars := [(key, value)];
    assert vars[..0] == [];
    assert before + Placeholder(key) + after == before + (Placeholder(key) + after);
    ReplaceSkips(before, Placeholder(key) + after, Placeholder(key), HtmlEscape(value));
    ReplaceLeading(Placeholder(key), after, HtmlEscape(value));
    ReplaceAbsent(after, Placeholder(key), HtmlEscape(value));
  }
}
