/**
 * `buildMarkdownLinkRelativeToDoc` (src/extension.ts:167-191): the Markdown
 * link text a completion inserts, and a parser for that link shape that
 * serves as its inverse.
 */
module Links {
  import opened Seqs
  import opened Strings
  import opened Host

  /** A Markdown link `[label](url)`, with a leading `!` when `bang` holds, followed by a blank line. */
  datatype Link = Link(bang: bool, text: string, url: string)

  /** The literal text of a link: its optional `!` and its body. */
  function Render(l: Link): string
  {
    (if l.bang then "!" else "") + Body(l)
  }

  /** `[text](url)` and a blank line. */
  function Body(l: Link): string
  {
    "[" + l.text + "](" + l.url + ")\n\n"
  }

  /** The index of the first `c` in `s`, or -1 when `s` holds none. */
  function FirstIndexOf(s: string, c: char): (r: int)
    ensures -1 <= r < |s|
    ensures r == -1 <==> c !in s
    ensures r >= 0 ==> s[r] == c && c !in s[..r]
    decreases |s|
  {
    if s == [] then -1
    else if s[0] == c then 0
    else
      var k := FirstIndexOf(s[1..], c);
      if k == -1 then -1
      else
        assert s[..k + 1] == [s[0]] + s[1..][..k];
        k + 1
  }

  /** The first `c` of `s` is at `k` when `s[k]` is one and none comes before it. */
  lemma FirstIndexOfAt(s: string, c: char, k: nat)
    requires k < |s| && s[k] == c && c !in s[..k]
    ensures FirstIndexOf(s, c) == k
  {
  }

  /**
   * Reads a link back: an optional `!`, then `[`, the label up to the first
   * `]`, `(`, the url, and the closing `)` and two newlines at the very end.
   */
  function ParseLink(t: string): Option<Link>
  {
    if |t| > 0 && t[0] == '!' then ParseBody(true, t[1..]) else ParseBody(false, t)
  }

  /** Reads the body `[text](url)` and a blank line of a link whose `!` is given by `bang`. */
  function ParseBody(bang: bool, body: string): Option<Link>
  {
    if |body| < 5 || body[0] != '[' || body[|body| - 3..] != ")\n\n" then None
    else
      var close := FirstIndexOf(body, ']');
      if close < 1 || close + 2 > |body| - 3 || body[close + 1] != '(' then None
      else Some(Link(bang, body[1..close], body[close + 2..|body| - 3]))
  }

  /** The positions of a link's body: `[` at 0, the text, `](`, the url, `)` and two newlines. */
  lemma BodyLayout(l: Link)
    ensures |Body(l)| == |l.text| + |l.url| + 6
    ensures Body(l)[0] == '['
    ensures Body(l)[..|l.text| + 1] == "[" + l.text
    ensures Body(l)[1..|l.text| + 1] == l.text
    ensures Body(l)[|l.text| + 1] == ']' && Body(l)[|l.text| + 2] == '('
    ensures Body(l)[|l.text| + 3..|Body(l)| - 3] == l.url
    ensures Body(l)[|Body(l)| - 3..] == ")\n\n"
  {
    var head := "[" + l.text + "](";
    assert Body(l) == head + (l.url + ")\n\n");
    assert head[..|l.text| + 1] == "[" + l.text;
  }

  /** The body of a link whose text holds no `]` reads back as that link. */
  lemma ParseBodyOf(bang: bool, l: Link)
    requires ']' !in l.text
    ensures ParseBody(bang, Body(l)) == Some(Link(bang, l.text, l.url))
  {
    var body := Body(l);
    BodyLayout(l);
    assert ']' !in body[..|l.text| + 1] by {
      assert body[..|l.text| + 1] == "[" + l.text;
    }
    FirstIndexOfAt(body, ']', |l.text| + 1);
  }

  /** Parsing a rendered link gives the link back, provided its text holds no `]`. */
  lemma ParseRender(l: Link)
    requires ']' !in l.text
    ensures ParseLink(Render(l)) == Some(l)
  {
    var t := Render(l);
    ParseBodyOf(l.bang, l);
    if l.bang {
      assert t[0] == '!' && t[1..] == Body(l);
    } else {
      assert t == Body(l);
      assert t[0] == '[';
    }
  }

  /** A sequence is the concatenation of its pieces cut at `i <= j`. */
  lemma Split3(s: string, i: nat, j: nat)
    requires i <= j <= |s|
    ensures s == s[..i] + s[i..j] + s[j..]
  {
  }

  /** Every body the parser accepts is the body of what it parses to. */
  lemma BodyOfParse(bang: bool, body: string)
    requires ParseBody(bang, body).Some?
    ensures Body(ParseBody(bang, body).value) == body
  {
    var close := FirstIndexOf(body, ']');
    var l := ParseBody(bang, body).value;
    var head := body[..close + 2];
    assert head == "[" + l.text + "](" by {
      Split3(head, 1, close);
      assert head[..1] == "[" && head[1..close] == l.text && head[close..] == "](";
    }
    Split3(body, close + 2, |body| - 3);
    assert body == head + l.url + ")\n\n";
  }

  /** Rendering a parsed link gives back the text it was parsed from. */
  lemma RenderParse(t: string)
    requires ParseLink(t).Some?
    ensures Render(ParseLink(t).value) == t
  {
    if |t| > 0 && t[0] == '!' {
      BodyOfParse(true, t[1..]);
      assert t == "!" + t[1..];
    } else {
      BodyOfParse(false, t);
    }
  }

  /**
   * The path of the link before separator normalisation: relative to the
   * editing document's directory for a saved (`file`) document, otherwise
   * workspace-relative.
   */
  function RawLinkPath(target: Uri, fromDoc: Uri, lib: PathLib): string
  {
    if fromDoc.scheme == "file" then lib.relative(lib.dirname(fromDoc.fsPath), target.fsPath)
    else lib.asRelativePath(target)
  }

  /** `buildMarkdownLinkRelativeToDoc(filename, targetUri, fromDocUri, prefixBang)`. */
  function BuildMarkdownLink(filename: string, target: Uri, fromDoc: Uri, prefixBang: bool, lib: PathLib): (r: string)
    ensures EndsWith(r, ")\n\n")
    ensures (|r| > 0 && r[0] == '!') <==> prefixBang
  {
    var display := (if prefixBang then "!" else "") + "[@" + StripMdExt(filename) + "]";
    var rel := ToPosix(RawLinkPath(target, fromDoc, lib));
    display + "(" + rel + ")\n\n"
  }

  /** The built text is the rendering of the link `[@stem](rel)`. */
  lemma BuildIsRender(filename: string, target: Uri, fromDoc: Uri, prefixBang: bool, lib: PathLib)
    ensures BuildMarkdownLink(filename, target, fromDoc, prefixBang, lib)
      == Render(Link(prefixBang, "@" + StripMdExt(filename), ToPosix(RawLinkPath(target, fromDoc, lib))))
  {
    var stem := StripMdExt(filename);
    var rel := ToPosix(RawLinkPath(target, fromDoc, lib));
    var pre := if prefixBang then "!" else "";
    var l := Link(prefixBang, "@" + stem, rel);
    assert pre + "[@" + stem + "]" == pre + ("[" + l.text + "]");
    assert "[" + l.text + "]" + "(" + rel + ")\n\n" == Body(l);
  }

  /**
   * The built text reads back as a link whose text is `@` and the file name
   * without its `.md` extension and whose url is the raw path with every
   * backslash turned into a slash (so it holds none).
   */
  lemma BuildMarkdownLinkParses(filename: string, target: Uri, fromDoc: Uri, prefixBang: bool, lib: PathLib)
    requires ']' !in filename
    ensures ParseLink(BuildMarkdownLink(filename, target, fromDoc, prefixBang, lib))
      == Some(Link(prefixBang, "@" + StripMdExt(filename), ToPosix(RawLinkPath(target, fromDoc, lib))))
    ensures '\\' !in ParseLink(BuildMarkdownLink(filename, target, fromDoc, prefixBang, lib)).value.url
  {
    var stem := StripMdExt(filename);
    var l := Link(prefixBang, "@" + stem, ToPosix(RawLinkPath(target, fromDoc, lib)));
    BuildIsRender(filename, target, fromDoc, prefixBang, lib);
    assert ']' !in stem by {
      forall i | 0 <= i < |stem| ensures stem[i] != ']' {
        assert stem[i] == filename[i];
      }
    }
    assert l.text == ['@'] + stem;
    ParseRender(l);
  }

  /** The link to `stem.md` with text `@stem`, spelled out. */
  lemma StemLinkText(stem: string)
    ensures Render(Link(false, "@" + stem, stem + ".md")) == "[@" + stem + "](" + stem + ".md)\n\n"
  {
    assert "[" + ("@" + stem) == "[@" + stem;
    assert (stem + ".md") + ")\n\n" == stem + ".md)\n\n";
  }

  /**
   * A target `stem.md` beside the saved document it is linked from, where
   * the stem holds no backslash: the link is `[@stem](stem.md)` and a blank
   * line.
   */
  lemma SameDirectoryLink(stem: string, target: Uri, fromDoc: Uri, lib: PathLib)
    requires '\\' !in stem
    requires fromDoc.scheme == "file"
    requires lib.relative(lib.dirname(fromDoc.fsPath), target.fsPath) == stem + ".md"
    ensures BuildMarkdownLink(stem + ".md", target, fromDoc, false, lib) == "[@" + stem + "](" + stem + ".md)\n\n"
  {
    var name := stem + ".md";
    BuildIsRender(name, target, fromDoc, false, lib);
    StripMdExtOf(stem);
    assert '\\' !in name by {
      assert forall i :: 0 <= i < |name| ==> name[i] == if i < |stem| then stem[i] else ".md"[i - |stem|];
    }
    StemLinkText(stem);
  }
}
