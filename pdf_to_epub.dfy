/**
 * The pure parts of the PDF to EPUB converter: HTML escaping, the HTML document built
 * from the PDF's metadata and page count (one placeholder block per page), and the
 * defaults for the EPUB's metadata. Loading the PDF and rendering the EPUB are done by
 * libraries and are not modelled.
 */
module PdfToEpub {

  import opened Wrappers
  import Text
  import opened Store

  /** The five characters `escapeHtml` replaces. */
  predicate Special(c: char)
  {
    c == '&' || c == '<' || c == '>' || c == '"' || c == '\''
  }

  /** The replacement of one character: its entity when it is special, itself otherwise. */
  function EscapeChar(c: char): (r: string)
    ensures Special(c) ==> |r| >= 4 && r[0] == '&'
    ensures !Special(c) ==> r == [c]
  {
    match c
    case '&' => "&amp;"
    case '<' => "&lt;"
    case '>' => "&gt;"
    case '"' => "&quot;"
    case '\'' => "&#039;"
    case _ => [c]
  }

  /** No character that could open a tag or close an attribute value. */
  predicate NoMarkup(s: string)
  {
    forall i :: 0 <= i < |s| ==> s[i] != '<' && s[i] != '>' && s[i] != '"' && s[i] != '\''
  }

  /** `text.replace(/[&<>"']/g, m => map[m])`: each character replaced on its own. */
  function EscapeHtml(s: string): (r: string)
    ensures NoMarkup(r)
    ensures |r| >= |s|
  {
    if s == [] then [] else EscapeChar(s[0]) + EscapeHtml(s[1..])
  }

  /** Escaping works character by character, so it distributes over concatenation. */
  lemma {:induction false} EscapeHtmlAppend(a: string, b: string)
    ensures EscapeHtml(a + b) == EscapeHtml(a) + EscapeHtml(b)
  {
    if a != [] {
      assert (a + b)[1..] == a[1..] + b;
      EscapeHtmlAppend(a[1..], b);
    } else {
      assert a + b == b;
    }
  }

  /** Text without special characters is left as it is. */
  lemma {:induction false} EscapeHtmlIdentity(s: string)
    requires forall i :: 0 <= i < |s| ==> !Special(s[i])
    ensures EscapeHtml(s) == s
  {
    if s != [] {
      EscapeHtmlIdentity(s[1..]);
    }
  }

  /** Decodes the five entities `EscapeHtml` writes; any other character stands for itself. */
  function UnescapeHtml(s: string): string
  {
    if s == [] then []
    else if |s| >= 5 && s[..5] == "&amp;" then "&" + UnescapeHtml(s[5..])
    else if |s| >= 4 && s[..4] == "&lt;" then "<" + UnescapeHtml(s[4..])
    else if |s| >= 4 && s[..4] == "&gt;" then ">" + UnescapeHtml(s[4..])
    else if |s| >= 6 && s[..6] == "&quot;" then "\"" + UnescapeHtml(s[6..])
    else if |s| >= 6 && s[..6] == "&#039;" then "'" + UnescapeHtml(s[6..])
    else [s[0]] + UnescapeHtml(s[1..])
  }

  /** Escaping loses nothing: decoding gives the text back. */
  lemma {:induction false} EscapeRoundTrip(s: string)
    ensures UnescapeHtml(EscapeHtml(s)) == s
  {
    if s != [] {
      EscapeRoundTrip(s[1..]);
      UnescapeStep(s[0], EscapeHtml(s[1..]));
      assert s == [s[0]] + s[1..];
    }
  }

  /** Decoding reads one escaped character back, whatever follows it. */
  lemma UnescapeStep(c: char, rest: string)
    ensures UnescapeHtml(EscapeChar(c) + rest) == [c] + UnescapeHtml(rest)
  {
    var e := EscapeChar(c);
    var t := e + rest;
    assert t[..|e|] == e && t[|e|..] == rest;
    if !Special(c) {
      assert t[0] == c && t[1..] == rest;
      assert |t| >= 4 ==> t[..4][0] == c;
      assert |t| >= 5 ==> t[..5][0] == c;
      assert |t| >= 6 ==> t[..6][0] == c;
    } else if c == '<' || c == '>' {
      assert |t| >= 5 ==> t[..5][1] == e[1];
    } else if c == '"' || c == '\'' {
      assert |t| >= 5 ==> t[..5][1] == e[1];
      assert t[..4][1] == e[1];
    }
  }

  /** What `convertPdfToEpub` is given about the item; `None` for an absent field. */
  datatype ConversionOptions = ConversionOptions(
    title: Option<string>, author: Option<string>, description: Option<string>,
    language: Option<string>, publicationDate: Option<string>)

  datatype EpubMetadata = EpubMetadata(title: string, author: string, description: string, lang: string)

  /** `options.x || default` for each field: "Untitled", "Unknown Author", "" and "en". */
  function EpubMetadataFor(options: ConversionOptions): (r: EpubMetadata)
    ensures r.title != [] && r.author != [] && r.lang != []
    ensures !Truthy(options.title) ==> r.title == "Untitled"
    ensures !Truthy(options.author) ==> r.author == "Unknown Author"
    ensures !Truthy(options.description) ==> r.description == ""
    ensures !Truthy(options.language) ==> r.lang == "en"
    ensures Truthy(options.title) ==> r.title == options.title.value
    ensures Truthy(options.author) ==> r.author == options.author.value
    ensures options.description.Some? ==> r.description == options.description.value
    ensures Truthy(options.language) ==> r.lang == options.language.value
  {
    EpubMetadata(OrDefault(options.title, "Untitled"), OrDefault(options.author, "Unknown Author"),
                 OrDefault(options.description, ""), OrDefault(options.language, "en"))
  }

  const OpeningDiv := "<div style=\"font-family: serif; line-height: 1.6;\">\n"
  const ClosingDiv := "</div>"

  /** The title, author and subject lines, each only when that value is truthy. */
  function TitleLine(title: Option<string>): (r: string)
    ensures (r != []) <==> Truthy(title)
  {
    if Truthy(title) then "<h1>" + EscapeHtml(title.value) + "</h1>\n" else ""
  }

  function AuthorLine(author: Option<string>): (r: string)
    ensures (r != []) <==> Truthy(author)
  {
    if Truthy(author) then "<p><em>By " + EscapeHtml(author.value) + "</em></p>\n" else ""
  }

  function SubjectLine(subject: Option<string>): (r: string)
    ensures (r != []) <==> Truthy(subject)
  {
    if Truthy(subject) then "<p>" + EscapeHtml(subject.value) + "</p>\n" else ""
  }

  /** The conversion notice, naming the page count. */
  function Notice(pageCount: nat): string
  {
    "<hr>\n" +
    "<p><em>This EPUB was automatically converted from a PDF document.</em></p>\n" +
    "<p><em>The original PDF contains " + Text.NatToString(pageCount) + " page(s).</em></p>\n" +
    "<p><em>Note: Text extraction from PDFs is limited. For best reading experience, please use the original PDF format.</em></p>\n" +
    "<hr>\n\n"
  }

  /** The placeholder block of page `i`, headed "Page i". */
  function PageBlock(i: nat): string
  {
    "<div class=\"page\">\n" +
    "<h2>Page " + Text.NatToString(i) + "</h2>\n" +
    "<p><em>[Content from page " + Text.NatToString(i) + " of the original PDF]</em></p>\n" +
    "</div>\n\n"
  }

  /** The blocks of pages 1 to n, in that order. */
  function PageBlocks(n: nat): string
  {
    Blocks(PageBlock, n)
  }

  /** `block(1) + … + block(n)` */
  function Blocks(block: nat -> string, n: nat): string
  {
    if n == 0 then [] else Blocks(block, n - 1) + block(n)
  }

  lemma AppendEmpty(a: string)
    ensures a + [] == a
  {
  }

  lemma Assoc(a: string, b: string, c: string)
    ensures (a + b) + c == a + (b + c)
  {
  }

  /**
   * Page `i`'s block stands right after the blocks of the pages before it, so the blocks
   * follow page order and none is missing.
   */
  lemma PageBlockPosition(n: nat, i: nat)
    requires 1 <= i <= n
    ensures Text.OccursAt(PageBlocks(n), PageBlock(i), |PageBlocks(i - 1)|)
  {
    BlockPosition(PageBlock, n, i);
  }

  lemma {:induction false} BlockPosition(block: nat -> string, n: nat, i: nat)
    requires 1 <= i <= n
    ensures Text.OccursAt(Blocks(block, n), block(i), |Blocks(block, i - 1)|)
  {
    var p := Blocks(block, i - 1);
    var b := block(i);
    if n == i {
      SliceOfAppend(p, b, |p|, |p| + |b|);
    } else {
      BlockPosition(block, n - 1, i);
      SliceOfAppend(Blocks(block, n - 1), block(n), |p|, |p| + |b|);
    }
  }

  /** A slice of `s + t` inside `s`, or exactly covering `t`. */
  lemma SliceOfAppend(s: string, t: string, lo: nat, hi: nat)
    requires lo <= hi <= |s| + |t|
    ensures hi <= |s| ==> (s + t)[lo..hi] == s[lo..hi]
    ensures lo == |s| && hi == |s| + |t| ==> (s + t)[lo..hi] == t
  {
  }

  /** The whole document for a PDF with these metadata values and this many pages. */
  function PdfContent(title: Option<string>, author: Option<string>, subject: Option<string>, pageCount: nat): string
  {
    Preamble(title, author, subject, pageCount) + PageBlocks(pageCount) + ClosingDiv
  }

  /** Everything before the first page block. */
  function Preamble(title: Option<string>, author: Option<string>, subject: Option<string>, pageCount: nat): string
  {
    OpeningDiv + TitleLine(title) + AuthorLine(author) + SubjectLine(subject) + Notice(pageCount)
  }

  lemma PreambleIs(h: string, title: Option<string>, author: Option<string>, subject: Option<string>, pageCount: nat)
    requires h == OpeningDiv + TitleLine(title) + AuthorLine(author) + SubjectLine(subject)
    ensures h + Notice(pageCount) == Preamble(title, author, subject, pageCount)
  {
  }

  lemma ContentIs(preamble: string, h: string, title: Option<string>, author: Option<string>, subject: Option<string>, pageCount: nat)
    requires preamble == Preamble(title, author, subject, pageCount)
    requires h == preamble + PageBlocks(pageCount)
    ensures h + ClosingDiv == PdfContent(title, author, subject, pageCount)
  {
  }

  /** The page loop of `extractPdfContent`: one block per page, from page 1 on. */
  method AppendPageBlocks(head: string, pageCount: nat) returns (html: string)
    ensures html == head + PageBlocks(pageCount)
  {
    html := head;
    AppendEmpty(head);
    var i := 1;
    while i <= pageCount
      invariant 1 <= i <= pageCount + 1
      invariant html == head + PageBlocks(i - 1)
    {
      Assoc(head, PageBlocks(i - 1), PageBlock(i));
      html := html + PageBlock(i);
      i := i + 1;
    }
  }

  /** `extractPdfContent`: the text is accumulated piece by piece, one block per page. */
  method ExtractPdfContent(title: Option<string>, author: Option<string>, subject: Option<string>, pageCount: nat)
    returns (html: string)
    ensures html == PdfContent(title, author, subject, pageCount)
  {
    html := OpeningDiv;
    if Truthy(title) {
      html := html + ("<h1>" + EscapeHtml(title.value) + "</h1>\n");
    } else {
      AppendEmpty(html);
    }
    assert html == OpeningDiv + TitleLine(title);
    if Truthy(author) {
      html := html + ("<p><em>By " + EscapeHtml(author.value) + "</em></p>\n");
    } else {
      AppendEmpty(html);
    }
    assert html == OpeningDiv + TitleLine(title) + AuthorLine(author);
    if Truthy(subject) {
      html := html + ("<p>" + EscapeHtml(subject.value) + "</p>\n");
    } else {
      AppendEmpty(html);
    }
    assert html == OpeningDiv + TitleLine(title) + AuthorLine(author) + SubjectLine(subject);
    PreambleIs(html, title, author, subject, pageCount);
    html := html + Notice(pageCount);
    ghost var preamble := html;
    html := AppendPageBlocks(html, pageCount);
    ContentIs(preamble, html, title, author, subject, pageCount);
    html := html + ClosingDiv;
  }
}
