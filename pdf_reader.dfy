/**
 * The PDF reader's page navigation: the number of pages, known once the document has
 * loaded, and the current page, moved one step at a time by "Previous" and "Next" and
 * clamped at either end.
 */
module PdfReader {

  /** `Math.max(prev - 1, 1)`: one page back, never below page 1. */
  function PrevPage(p: int): (r: int)
    ensures r >= 1
    ensures p > 1 ==> r == p - 1
    ensures p <= 1 ==> r == 1
  {
    if p - 1 > 1 then p - 1 else 1
  }

  /** `Math.min(prev + 1, numPages)`: one page on, never past the last page. */
  function NextPage(p: int, numPages: int): (r: int)
    ensures r <= numPages
    ensures p < numPages ==> r == p + 1
    ensures p >= numPages ==> r == numPages
  {
    if p + 1 < numPages then p + 1 else numPages
  }

  /** The "Previous" button is disabled on the first page (`disabled={pageNumber <= 1}`). */
  predicate PrevDisabled(p: int)
  {
    p <= 1
  }

  /** The "Next" button is disabled on the last page (`disabled={pageNumber >= numPages}`). */
  predicate NextDisabled(p: int, numPages: int)
  {
    p >= numPages
  }

  /** A page of the document. */
  predicate InRange(p: int, numPages: int)
  {
    1 <= p <= numPages
  }

  /** Both steps keep a page inside the document. */
  lemma StepsStayInRange(p: int, numPages: int)
    requires InRange(p, numPages)
    ensures InRange(PrevPage(p), numPages) && InRange(NextPage(p, numPages), numPages)
  {
  }

  /** An enabled button moves exactly one page; a disabled one, inside the document, leaves the page as it is. */
  lemma ButtonsAgreeWithSteps(p: int, numPages: int)
    requires InRange(p, numPages)
    ensures !PrevDisabled(p) <==> PrevPage(p) == p - 1
    ensures PrevDisabled(p) <==> PrevPage(p) == p
    ensures !NextDisabled(p, numPages) <==> NextPage(p, numPages) == p + 1
    ensures NextDisabled(p, numPages) <==> NextPage(p, numPages) == p
  {
  }

  /** "Next" then "Previous" comes back to the page, except from the last page. */
  lemma NextThenPrev(p: int, numPages: int)
    requires 1 <= p < numPages
    ensures PrevPage(NextPage(p, numPages)) == p
  {
  }

  /** "Previous" then "Next" comes back to the page, except from the first page. */
  lemma PrevThenNext(p: int, numPages: int)
    requires 1 < p <= numPages
    ensures NextPage(PrevPage(p), numPages) == p
  {
  }

  /** Before the document has loaded there are no pages, and "Next" goes to page 0. */
  lemma NextBeforeLoad(p: int)
    requires p >= 0
    ensures NextPage(p, 0) == 0
  {
  }

  /** The component's two pieces of state. */
  class Reader {
    var numPages: int
    var pageNumber: int

    /** `useState(0)` and `useState(1)`. */
    constructor ()
      ensures numPages == 0 && pageNumber == 1
    {
      numPages := 0;
      pageNumber := 1;
    }

    /** `onDocumentLoadSuccess`: the page count comes from the document; the page is kept. */
    method OnDocumentLoadSuccess(pages: int)
      modifies this
      ensures numPages == pages && pageNumber == old(pageNumber)
    {
      numPages := pages;
    }

    method GoToPrevPage()
      modifies this
      ensures pageNumber == PrevPage(old(pageNumber)) && numPages == old(numPages)
      ensures pageNumber >= 1
      ensures InRange(old(pageNumber), numPages) ==> InRange(pageNumber, numPages)
    {
      pageNumber := PrevPage(pageNumber);
    }

    method GoToNextPage()
      modifies this
      ensures pageNumber == NextPage(old(pageNumber), old(numPages)) && numPages == old(numPages)
      ensures pageNumber <= numPages
      ensures InRange(old(pageNumber), numPages) ==> InRange(pageNumber, numPages)
    {
      pageNumber := NextPage(pageNumber, numPages);
    }
  }
}
