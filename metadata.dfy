/**
 * Metadata read from an uploaded file. The EPUB and PDF parsers are libraries; what is
 * modelled is how their parsed output is mapped onto the item's fields, the reformatting
 * of a PDF creation date `D:YYYYMMDD…` into `YYYY-MM-DD`, and the dispatch on file type.
 */
module Metadata {

  import opened Wrappers
  import Text
  import Store

  /** The fields the extractors fill; `None` is a field left out of the object. */
  datatype MediaMetadata = MediaMetadata(
    title: Option<string>, author: Option<string>, description: Option<string>,
    language: Option<string>, publicationDate: Option<string>)

  const Empty := MediaMetadata(None, None, None, None, None)

  /** A value the EPUB parser may report for a field. */
  datatype JsValue =
    | Absent
    | Str(s: string)
    | StrList(items: seq<string>)
    /** A number, an object or another value that is not a string; `truthy` says how `if` sees it. */
    | NonString(truthy: bool)

  /** `v && typeof v === 'string'` */
  predicate NonEmptyString(v: JsValue)
  {
    v.Str? && v.s != []
  }

  /** `if (v)`: an array is truthy even when it is empty. */
  predicate Truthy(v: JsValue)
  {
    match v
    case Absent => false
    case Str(s) => s != []
    case StrList(_) => true
    case NonString(t) => t
  }

  /** The parsed EPUB package metadata. */
  datatype EpubData = EpubData(
    title: JsValue, creator: JsValue, description: JsValue, language: JsValue,
    date: JsValue, published: JsValue)

  /** The PDF document information dictionary; `None` for an entry that is missing. */
  datatype PdfInfo = PdfInfo(
    title: Option<string>, author: Option<string>, subject: Option<string>, creationDate: Option<string>)

  /** What a parser delivers: its data, or the error it failed with. */
  datatype Parsed<T> = ParseOk(data: T) | ParseFailed(error: string)

  /** The creator as the author: a list joined with ", ", a non-empty string as it is. */
  function CreatorAuthor(creator: JsValue): (r: Option<string>)
    ensures creator.StrList? ==> r == Some(Text.Join(creator.items, ", "))
    ensures NonEmptyString(creator) ==> r == Some(creator.s)
    ensures r.Some? <==> creator.StrList? || NonEmptyString(creator)
  {
    if Truthy(creator) then
      if creator.StrList? then Some(Text.Join(creator.items, ", "))
      else if creator.Str? then Some(creator.s)
      else None
    else None
  }

  /** `extractEpubMetadata`, once the parser has answered: the object is filled field by field. */
  method ExtractEpubMetadata(data: EpubData) returns (m: MediaMetadata)
    ensures m.title.Some? <==> NonEmptyString(data.title)
    ensures m.title.Some? ==> data.title == Str(m.title.value)
    ensures m.author == CreatorAuthor(data.creator)
    ensures m.description.Some? <==> NonEmptyString(data.description)
    ensures m.description.Some? ==> data.description == Str(m.description.value)
    ensures m.language.Some? <==> NonEmptyString(data.language)
    ensures m.language.Some? ==> data.language == Str(m.language.value)
    ensures m.publicationDate.Some? <==> NonEmptyString(data.date) || NonEmptyString(data.published)
    ensures NonEmptyString(data.date) ==> m.publicationDate == Some(data.date.s)
    ensures !NonEmptyString(data.date) && NonEmptyString(data.published) ==> m.publicationDate == Some(data.published.s)
  {
    m := Empty;
    if NonEmptyString(data.title) {
      m := m.(title := Some(data.title.s));
    }
    if Truthy(data.creator) {
      if data.creator.StrList? {
        m := m.(author := Some(Text.Join(data.creator.items, ", ")));
      } else if data.creator.Str? {
        m := m.(author := Some(data.creator.s));
      }
    }
    if NonEmptyString(data.description) {
      m := m.(description := Some(data.description.s));
    }
    if NonEmptyString(data.language) {
      m := m.(language := Some(data.language.s));
    }
    if NonEmptyString(data.date) {
      m := m.(publicationDate := Some(data.date.s));
    } else if NonEmptyString(data.published) {
      m := m.(publicationDate := Some(data.published.s));
    }
  }

  /** `D:` followed by eight digits, starting at position `i`. */
  predicate DateAt(s: string, i: int)
  {
    0 <= i && i + 10 <= |s| && s[i] == 'D' && s[i + 1] == ':' &&
    forall k :: i + 2 <= k < i + 10 ==> Text.IsDigit(s[k])
  }

  /** The year, month and day of the match at `i`, joined with dashes. */
  function DateFrom(s: string, i: int): string
    requires DateAt(s, i)
  {
    s[i + 2..i + 6] + "-" + s[i + 6..i + 8] + "-" + s[i + 8..i + 10]
  }

  /** The leftmost position, from `from` on, where the date pattern matches. */
  function FirstDateAt(s: string, from: nat): (r: Option<nat>)
    decreases |s| - from
    ensures r.Some? ==> from <= r.value && DateAt(s, r.value) && forall j :: from <= j < r.value ==> !DateAt(s, j)
    ensures r.None? ==> forall j :: from <= j ==> !DateAt(s, j)
  {
    if from + 10 > |s| then None
    else if DateAt(s, from) then Some(from)
    else FirstDateAt(s, from + 1)
  }

  /**
   * `dateStr.match(/D:(\d{4})(\d{2})(\d{2})/)` and the template `${year}-${month}-${day}`:
   * the first match decides, and without one there is no date.
   */
  function PdfDate(s: string): (r: Option<string>)
    ensures r.Some? <==> exists i :: DateAt(s, i)
    ensures r.Some? ==> exists i :: DateAt(s, i) && (forall j :: 0 <= j < i ==> !DateAt(s, j)) && r.value == DateFrom(s, i)
  {
    var k := FirstDateAt(s, 0);
    if k.Some? then Some(DateFrom(s, k.value)) else None
  }

  /** `YYYY-MM-DD`: four digits, a dash, two digits, a dash, two digits. */
  predicate IsoDate(d: string)
  {
    |d| == 10 && d[4] == '-' && d[7] == '-' &&
    forall k :: 0 <= k < 10 && k != 4 && k != 7 ==> Text.IsDigit(d[k])
  }

  /** A reformatted date has the ISO shape and loses no digit: dropping the dashes gives the match back. */
  lemma PdfDateShape(s: string)
    requires PdfDate(s).Some?
    ensures IsoDate(PdfDate(s).value)
    ensures var d := PdfDate(s).value;
      exists i :: DateAt(s, i) && s[i..i + 10] == "D:" + d[..4] + d[5..7] + d[8..]
  {
    var i := FirstDateAt(s, 0).value;
    var y, mo, dd := s[i + 2..i + 6], s[i + 6..i + 8], s[i + 8..i + 10];
    DateParts(s, i, y, mo, dd);
    DashedDate(y, mo, dd);
    var d := PdfDate(s).value;
    assert d == y + "-" + mo + "-" + dd;
    assert DateAt(s, i) && s[i..i + 10] == "D:" + d[..4] + d[5..7] + d[8..];
  }

  /** A match is `D:` and its three digit groups, each of them digits. */
  lemma DateParts(s: string, i: int, y: string, mo: string, dd: string)
    requires DateAt(s, i)
    requires y == s[i + 2..i + 6] && mo == s[i + 6..i + 8] && dd == s[i + 8..i + 10]
    ensures forall k :: 0 <= k < 4 ==> Text.IsDigit(y[k])
    ensures forall k :: 0 <= k < 2 ==> Text.IsDigit(mo[k]) && Text.IsDigit(dd[k])
    ensures s[i..i + 10] == "D:" + y + mo + dd
  {
    assert forall k :: 0 <= k < 4 ==> y[k] == s[i + 2 + k];
    assert forall k :: 0 <= k < 2 ==> mo[k] == s[i + 6 + k] && dd[k] == s[i + 8 + k];
  }

  /** Year, month and day joined with dashes: the ISO shape, and each part can be cut out again. */
  lemma DashedDate(y: string, mo: string, dd: string)
    requires |y| == 4 && |mo| == 2 && |dd| == 2
    requires forall k :: 0 <= k < 4 ==> Text.IsDigit(y[k])
    requires forall k :: 0 <= k < 2 ==> Text.IsDigit(mo[k]) && Text.IsDigit(dd[k])
    ensures var d := y + "-" + mo + "-" + dd;
      IsoDate(d) && d[..4] == y && d[5..7] == mo && d[8..] == dd
  {
    var d := y + "-" + mo + "-" + dd;
    assert forall k :: 0 <= k < 4 ==> d[k] == y[k];
    assert forall k :: 0 <= k < 2 ==> d[5 + k] == mo[k] && d[8 + k] == dd[k];
  }

  /** `extractPdfMetadata`, once the parser has answered: truthy entries are copied, the date reformatted. */
  method ExtractPdfMetadata(info: Option<PdfInfo>) returns (m: MediaMetadata)
    ensures m.language.None?
    ensures info.None? ==> m == Empty
    ensures info.Some? ==>
      (m.title.Some? <==> Store.Truthy(info.value.title)) && (m.title.Some? ==> m.title == info.value.title) &&
      (m.author.Some? <==> Store.Truthy(info.value.author)) && (m.author.Some? ==> m.author == info.value.author) &&
      (m.description.Some? <==> Store.Truthy(info.value.subject)) && (m.description.Some? ==> m.description == info.value.subject)
    ensures m.publicationDate.Some? <==> info.Some? && Store.Truthy(info.value.creationDate) && PdfDate(info.value.creationDate.value).Some?
    ensures m.publicationDate.Some? ==> m.publicationDate == PdfDate(info.value.creationDate.value)
  {
    m := Empty;
    if info.Some? {
      var i := info.value;
      if Store.Truthy(i.title) {
        m := m.(title := i.title);
      }
      if Store.Truthy(i.author) {
        m := m.(author := i.author);
      }
      if Store.Truthy(i.subject) {
        m := m.(description := i.subject);
      }
      if Store.Truthy(i.creationDate) {
        var date := PdfDate(i.creationDate.value);
        if date.Some? {
          m := m.(publicationDate := date);
        }
      }
    }
  }

  /**
   * `extractMetadata`: the EPUB extractor for "epub", the PDF extractor for "pdf", an empty
   * object for any other type. The parsers' outcomes are parameters; a parser failure is
   * passed on.
   */
  method ExtractMetadata(fileType: string, epub: Parsed<EpubData>, pdf: Parsed<Option<PdfInfo>>)
    returns (r: Parsed<MediaMetadata>)
    ensures fileType != "epub" && fileType != "pdf" ==> r == ParseOk(Empty)
    ensures fileType == "epub" && epub.ParseFailed? ==> r == ParseFailed(epub.error)
    ensures fileType == "pdf" && pdf.ParseFailed? ==> r == ParseFailed(pdf.error)
    ensures fileType == "epub" && epub.ParseOk? ==>
      r.ParseOk? && r.data.author == CreatorAuthor(epub.data.creator) &&
      (r.data.title.Some? <==> NonEmptyString(epub.data.title))
    ensures fileType == "pdf" && pdf.ParseOk? ==>
      r.ParseOk? && r.data.language.None? &&
      (pdf.data.None? ==> r.data == Empty)
  {
    if fileType == "epub" {
      if epub.ParseFailed? {
        return ParseFailed(epub.error);
      }
      var m := ExtractEpubMetadata(epub.data);
      return ParseOk(m);
    } else if fileType == "pdf" {
      if pdf.ParseFailed? {
        return ParseFailed(pdf.error);
      }
      var m := ExtractPdfMetadata(pdf.data);
      return ParseOk(m);
    }
    return ParseOk(Empty);
  }
}
