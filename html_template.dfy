/**
 * The subset of Go's `html/template` that the node manager's command
 * templates use: literal text and `{{.Field}}` actions in HTML text context.
 * A template is kept in parsed form, its actions naming fields of type `F`; executing it prints each field and
 * escapes the printed value the way html/template does in text context.
 */
module HtmlTemplate {
  import opened Wrappers

  datatype Piece<F> = Text(text: string) | Action(field: F)

  /** A parsed template, read from left to right. */
  type Template<F> = seq<Piece<F>>

  /** The characters html/template rewrites in HTML text context. */
  predicate IsHtmlSpecial(c: char)
  {
    c == '\0' || c == '"' || c == '&' || c == '\'' || c == '+' || c == '<' || c == '>'
  }

  predicate HtmlNeutral(s: string)
  {
    forall k :: 0 <= k < |s| ==> !IsHtmlSpecial(s[k])
  }

  /** A string made of two neutral strings is neutral. */
  lemma HtmlNeutralAppend(a: string, b: string)
    requires HtmlNeutral(a) && HtmlNeutral(b)
    ensures HtmlNeutral(a + b)
  {
    forall k | 0 <= k < |a + b|
      ensures !IsHtmlSpecial((a + b)[k])
    {
      if k < |a| {
        assert (a + b)[k] == a[k];
      } else {
        assert (a + b)[k] == b[k - |a|];
      }
    }
  }

  /** The replacement of one character; a space is never introduced. */
  function EscapeChar(c: char): (r: string)
    ensures |r| >= 1
    ensures !IsHtmlSpecial(c) <==> r == [c]
    ensures ' ' in r <==> c == ' '
  {
    match c
    case '\0' => "\U{FFFD}"
    case '"' => "&#34;"
    case '&' => "&amp;"
    case '\'' => "&#39;"
    case '+' => "&#43;"
    case '<' => "&lt;"
    case '>' => "&gt;"
    case _ => [c]
  }

  /**
   * html/template's escaper for a value printed in text context. It keeps
   * every character but the specials and never creates nor removes a space.
   */
  function HtmlEscape(s: string): (r: string)
    ensures |r| >= |s|
  {
    if s == [] then [] else EscapeChar(s[0]) + HtmlEscape(s[1..])
  }

  /** Escaping neither creates nor removes a space. */
  lemma {:induction false} HtmlEscapeKeepsSpaces(s: string)
    ensures ' ' in HtmlEscape(s) <==> ' ' in s
  {
    if s != [] {
      HtmlEscapeKeepsSpaces(s[1..]);
      assert s == [s[0]] + s[1..];
      assert HtmlEscape(s) == EscapeChar(s[0]) + HtmlEscape(s[1..]);
    }
  }

  /** Escaping a value with no special character leaves it as it is. */
  lemma {:induction false} HtmlEscapeNeutral(s: string)
    requires HtmlNeutral(s)
    ensures HtmlEscape(s) == s
  {
    if s != [] {
      HtmlEscapeNeutral(s[1..]);
      assert [s[0]] + s[1..] == s;
    }
  }

  /** Escaping works character by character, so it distributes over `+`. */
  lemma {:induction false} HtmlEscapeAppend(a: string, b: string)
    ensures HtmlEscape(a + b) == HtmlEscape(a) + HtmlEscape(b)
  {
    if a != [] {
      HtmlEscapeAppend(a[1..], b);
      var e := EscapeChar(a[0]);
      assert (a + b)[0] == a[0];
      assert (a + b)[1..] == a[1..] + b;
      assert HtmlEscape(a + b) == e + HtmlEscape(a[1..] + b);
      assert HtmlEscape(a) == e + HtmlEscape(a[1..]);
      assert e + (HtmlEscape(a[1..]) + HtmlEscape(b)) == e + HtmlEscape(a[1..]) + HtmlEscape(b);
    } else {
      assert a + b == b;
    }
  }

  predicate Defines<F>(t: Template<F>, data: map<F, string>)
  {
    forall k :: 0 <= k < |t| && t[k].Action? ==> t[k].field in data
  }

  /**
   * Executes `t` on `data`, which maps each field to its printed form, from
   * left to right; the first field that is missing stops execution with an
   * error naming it, as Go's "can't evaluate field" error does.
   */
  function Execute<F>(t: Template<F>, data: map<F, string>): (r: Result<string, F>)
    ensures r.Failure? ==> r.error !in data && Action(r.error) in t
  {
    if t == [] then Success("")
    else match t[0]
      case Text(s) =>
        var rest := Execute(t[1..], data);
        if rest.Success? then Success(s + rest.value) else rest
      case Action(f) =>
        if f !in data then Failure(f)
        else
          var rest := Execute(t[1..], data);
          if rest.Success? then Success(HtmlEscape(data[f]) + rest.value) else rest
  }

  /**
   * Execution succeeds exactly when every field the template names is
   * defined; otherwise the error names the first field that is missing.
   */
  lemma {:induction false} ExecuteFailsOnFirstMissingField<F>(t: Template<F>, data: map<F, string>)
    ensures Execute(t, data).Success? <==> Defines(t, data)
    ensures Execute(t, data).Failure? ==>
      exists k :: 0 <= k < |t| && t[k] == Action(Execute(t, data).error)
        && Execute(t, data).error !in data && Defines(t[..k], data)
  {
    if t != [] {
      ExecuteFailsOnFirstMissingField(t[1..], data);
      assert forall k :: 1 <= k < |t| ==> t[k] == t[1..][k - 1];
      var r := Execute(t, data);
      var rest := Execute(t[1..], data);
      if t[0].Action? && t[0].field !in data {
        assert t[..0] == [];
      } else if rest.Failure? {
        var k :| 0 <= k < |t[1..]| && t[1..][k] == Action(rest.error) && rest.error !in data
          && Defines(t[1..][..k], data);
        assert t[..k + 1] == [t[0]] + t[1..][..k];
      }
    }
  }

  /**
   * Execution reads only the fields the template names: two data maps that
   * agree on those fields give the same result.
   */
  lemma {:induction false} ExecuteReadsOnlyNamedFields<F>(t: Template<F>, d1: map<F, string>, d2: map<F, string>)
    requires forall k :: 0 <= k < |t| && t[k].Action? ==>
      (t[k].field in d1 <==> t[k].field in d2) && (t[k].field in d1 ==> d1[t[k].field] == d2[t[k].field])
    ensures Execute(t, d1) == Execute(t, d2)
  {
    if t != [] {
      ExecuteReadsOnlyNamedFields(t[1..], d1, d2);
    }
  }

  /** A text followed by one action, the unit the node manager's templates are made of. */
  function Slot<F>(text: string, field: F): Template<F>
  {
    [Text(text), Action(field)]
  }

  /** Executing a slot and then the rest of a template. */
  lemma ExecuteSlot<F>(text: string, field: F, rest: Template<F>, data: map<F, string>)
    requires field in data && Execute(rest, data).Success?
    ensures Execute(Slot(text, field) + rest, data)
      == Success(text + (HtmlEscape(data[field]) + Execute(rest, data).value))
  {
    var t := Slot(text, field) + rest;
    assert t[1..][1..] == rest;
  }
}
