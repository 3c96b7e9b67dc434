/**
 * The module-text generator of GUI.calculate: one dictionary entry per
 * (name, payload) pair, the entries joined with line breaks, and the result
 * put into TEMPLATE by str.format. Also a reader for the generated display,
 * used to state that the generated module holds exactly the given pairs.
 */
module ModuleTemplate {
  import opened Results
  import opened Text
  import opened TemplateText
  import opened ImagesDisplay

  lemma {:induction false} UnlinesNoBraces(ls: seq<string>)
    requires forall k :: 0 <= k < |ls| ==> NoBraces(ls[k])
    ensures NoBraces(Unlines(ls))
  {
    if |ls| > 0 {
      UnlinesNoBraces(ls[1..]);
    }
  }

  const Header: string := Unlines(HeaderLines)

  /** The IMAGES display of TEMPLATE: escaped braces around the one `{}` field. */
  const Hole: string := "IMAGES = " + "{{" + "\n" + "{}" + "\n" + "}}" + "\n"

  const Footer: string := Unlines(FooterLines)

  /** TEMPLATE: a raw string, so it holds no escape sequences. */
  const Template: string := Header + Hole + Footer

  lemma HeaderNoBraces()
    ensures NoBraces(Header)
  {
    HeaderLinesNoBraces();
    UnlinesNoBraces(HeaderLines);
  }

  lemma FooterNoBraces()
    ensures NoBraces(Footer)
  {
    FooterLinesNoBraces();
    UnlinesNoBraces(FooterLines);
  }

  // ----- str.format with one positional argument -----

  /** The ways str.format can fail on a format string given one positional argument. */
  datatype FormatError =
    | SingleOpenBrace   // a '{' at the very end
    | SingleCloseBrace  // a '}' not followed by another '}'
    | UnsupportedField  // a replacement field other than {} (named, numbered, with conversion or spec)
    | IndexOutOfRange   // a second automatically numbered field, with only one argument

  function Prepend(p: string, r: Result<string, FormatError>): Result<string, FormatError>
  {
    match r
    case Ok(s) => Ok(p + s)
    case Err(e) => Err(e)
  }

  /**
   * str.format(arg) on the rest t of a format string, scanning left to right:
   * "{{" and "}}" stand for one brace, "{}" for the argument (once: used
   * records whether it has been taken), any other brace is an error. The
   * argument is put in at most once, so the text grows by at most its length.
   */
  function FormatFrom(t: string, used: bool, arg: string): (r: Result<string, FormatError>)
    ensures r.Ok? ==> |r.value| <= |t| + (if used then 0 else |arg|)
    decreases |t|
  {
    if |t| == 0 then Ok([])
    else if t[0] == '{' then
      if |t| == 1 then Err(SingleOpenBrace)
      else if t[1] == '{' then Prepend("{", FormatFrom(t[2..], used, arg))
      else if t[1] == '}' then
        if used then Err(IndexOutOfRange) else Prepend(arg, FormatFrom(t[2..], true, arg))
      else Err(UnsupportedField)
    else if t[0] == '}' then
      if |t| > 1 && t[1] == '}' then Prepend("}", FormatFrom(t[2..], used, arg))
      else Err(SingleCloseBrace)
    else Prepend([t[0]], FormatFrom(t[1..], used, arg))
  }

  /** template.format(arg); a template without braces formats to itself. */
  function Format(template: string, arg: string): (r: Result<string, FormatError>)
    ensures NoBraces(template) ==> r == Ok(template)
  {
    if NoBraces(template) then
      FormatPlain(template, [], false, arg);
      assert template + [] == template;
      FormatFrom(template, false, arg)
    else FormatFrom(template, false, arg)
  }

  /** Text without braces is copied unchanged. */
  lemma {:induction false} FormatPlain(a: string, rest: string, used: bool, arg: string)
    requires NoBraces(a)
    ensures FormatFrom(a + rest, used, arg) == Prepend(a, FormatFrom(rest, used, arg))
    decreases |a|
  {
    if |a| == 0 {
      assert a + rest == rest;
      match FormatFrom(rest, used, arg)
      case Ok(s) => assert a + s == s;
      case Err(_) =>
    } else {
      assert (a + rest)[0] == a[0];
      assert (a + rest)[1..] == a[1..] + rest;
      FormatPlain(a[1..], rest, used, arg);
      match FormatFrom(rest, used, arg)
      case Ok(s) => assert [a[0]] + (a[1..] + s) == a + s;
      case Err(_) =>
    }
  }

  /** The text of the module that calculate writes, for a given IMAGES body. */
  function Rendered(body: string): string
  {
    Header + "IMAGES = {\n" + body + "\n}\n" + Footer
  }

  lemma FormatEscapedOpen(rest: string, used: bool, arg: string)
    ensures FormatFrom("{{" + rest, used, arg) == Prepend("{", FormatFrom(rest, used, arg))
  {
    assert ("{{" + rest)[2..] == rest;
  }

  lemma FormatEscapedClose(rest: string, used: bool, arg: string)
    ensures FormatFrom("}}" + rest, used, arg) == Prepend("}", FormatFrom(rest, used, arg))
  {
    assert ("}}" + rest)[2..] == rest;
  }

  lemma FormatField(rest: string, arg: string)
    ensures FormatFrom("{}" + rest, false, arg) == Prepend(arg, FormatFrom(rest, true, arg))
  {
    assert ("{}" + rest)[2..] == rest;
  }

  /** From the one field of the IMAGES display to the end of a brace-free foot. */
  lemma FormatFromField(foot: string, body: string)
    requires NoBraces(foot)
    ensures FormatFrom("{}" + ("\n" + ("}}" + ("\n" + foot))), false, body)
         == Ok(body + ("\n" + ("}" + ("\n" + foot))))
  {
    var t4 := "\n" + foot;
    FormatPlain(t4, [], true, body);
    assert t4 + [] == t4;
    FormatEscapedClose(t4, true, body);
    FormatPlain("\n", "}}" + t4, true, body);
    FormatField("\n" + ("}}" + t4), body);
  }

  /** A brace-free head and foot around the IMAGES display of TEMPLATE. */
  lemma FormatAroundHole(head: string, foot: string, body: string)
    requires NoBraces(head) && NoBraces(foot)
    ensures FormatFrom(head + ("IMAGES = " + ("{{" + ("\n" + ("{}" + ("\n" + ("}}" + ("\n" + foot))))))), false, body)
         == Ok(head + ("IMAGES = " + ("{" + ("\n" + (body + ("\n" + ("}" + ("\n" + foot))))))))
  {
    var t1 := "{}" + ("\n" + ("}}" + ("\n" + foot)));
    FormatFromField(foot, body);
    FormatPlain("\n", t1, false, body);
    FormatEscapedOpen("\n" + t1, false, body);
    FormatPlain("IMAGES = ", "{{" + ("\n" + t1), false, body);
    FormatPlain(head, "IMAGES = " + ("{{" + ("\n" + t1)), false, body);
  }

  /**
   * TEMPLATE.format(body) never fails, and gives the template with "{{" and
   * "}}" turned into single braces and body in place of "{}"; everything
   * else in the template is copied unchanged, and body is not scanned for
   * braces.
   */
  lemma FormatTemplate(body: string)
    ensures Format(Template, body) == Ok(Rendered(body))
  {
    HeaderNoBraces();
    FooterNoBraces();
    FormatAroundHole(Header, Footer, body);
    assert Template == Header + ("IMAGES = " + ("{{" + ("\n" + ("{}" + ("\n" + ("}}" + ("\n" + Footer)))))));
    assert Rendered(body) == Header + ("IMAGES = " + ("{" + ("\n" + (body + ("\n" + ("}" + ("\n" + Footer)))))));
  }

  /** The body inside a generated module, between the display's opening and closing lines. */
  function ImagesOf(m: string): Option<seq<(string, string)>>
  {
    var open := Header + "IMAGES = {\n";
    var close := "\n}\n" + Footer;
    if |m| < |open| + |close| || m[..|open|] != open || m[|m| - |close|..] != close then None
    else ParseBody(m[|open|..|m| - |close|])
  }

  /** The module text determines its body: what the generator put in is what a reader takes out. */
  lemma ImagesOfRendered(body: string)
    ensures ImagesOf(Rendered(body)) == ParseBody(body)
  {
    var open := Header + "IMAGES = {\n";
    var close := "\n}\n" + Footer;
    var m := Rendered(body);
    assert m == open + body + close;
    assert m[..|open|] == open;
    assert m[|m| - |close|..] == close;
    assert m[|open|..|m| - |close|] == body;
  }

}
