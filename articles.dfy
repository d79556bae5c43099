/**
 * Per-article extraction: an existing page's summary followed by its
 * filtered section text, cut to the character window `[minLength:maxLength]`
 * with Python's slice rules, becomes an article record unless the window is
 * empty.
 */
module Articles {
  import opened Sections

  datatype Option<T> = None | Some(value: T)

  /**
   * A member page as the encyclopedia client reports it: its title, its
   * namespace number (0 for ordinary articles), whether it exists, its lead
   * summary and its section tree.
   */
  datatype Page = Page(title: string, ns: int, existing: bool, summary: string, sections: seq<Section>)

  /** The record stored for an accepted article. */
  datatype Record = Record(category: string, text: string, length: int)

  /** A record as the corpus promises it: non-empty text whose length is recorded exactly. */
  predicate WellFormed(r: Record) {
    r.text != [] && r.length == |r.text|
  }

  /**
   * A slice bound normalised the way Python normalises it for a step of 1: a
   * negative bound counts from the end, and the result is clamped to `[0, n]`.
   */
  function SliceIndex(i: int, n: nat): (r: nat)
    ensures r <= n
    ensures 0 <= i ==> r == if i < n then i else n
    ensures i < 0 ==> r == if -i <= n then n + i else 0
  {
    if i < 0 then (if i + n < 0 then 0 else i + n)
    else if i > n then n
    else i
  }

  /** Python's `s[lo:hi]`. */
  function Slice(s: string, lo: int, hi: int): (r: string)
    ensures |r| <= |s|
    ensures r == [] <==> SliceIndex(hi, |s|) <= SliceIndex(lo, |s|)
    ensures r != [] ==> r == s[SliceIndex(lo, |s|)..SliceIndex(hi, |s|)]
  {
    var a, b := SliceIndex(lo, |s|), SliceIndex(hi, |s|);
    if a < b then s[a..b] else []
  }

  /**
   * For non-negative bounds the slice is a left trim to offset `lo` and a
   * right cut at offset `hi`, not a test on the length of `s`.
   */
  lemma SliceWindow(s: string, lo: int, hi: int)
    requires 0 <= lo && 0 <= hi
    ensures var bound := if hi < |s| then hi else |s|;
      Slice(s, lo, hi) == if lo < bound then s[lo..bound] else []
  {
  }

  /** The full text of an existing page before trimming: summary, then the kept sections, no separator. */
  function RawText(page: Page, excluded: seq<string>): (r: string)
    ensures |r| <= |page.summary| + TotalText(page.sections)
    ensures |page.summary| <= |r| && r[..|page.summary|] == page.summary
  {
    page.summary + Extract(excluded, page.sections)
  }

  /**
   * Extraction of one member page under `category`: none for a missing page
   * or an empty window, otherwise a record of the category, the window of the
   * raw text and its length.
   */
  function GetArticle(page: Page, category: string, excluded: seq<string>, minLength: int, maxLength: int): (r: Option<Record>)
    ensures !page.existing ==> r == None
    ensures r.Some? <==> page.existing && Slice(RawText(page, excluded), minLength, maxLength) != []
    ensures r.Some? ==> WellFormed(r.value) && r.value.category == category
    ensures r.Some? ==> r.value.text == Slice(RawText(page, excluded), minLength, maxLength)
  {
    if page.existing then
      var reduced := Slice(RawText(page, excluded), minLength, maxLength);
      if reduced != [] then Some(Record(category, reduced, |reduced|)) else None
    else None
  }

  /**
   * With non-negative bounds, an accepted record's text is exactly the raw
   * text from offset `minLength` up to `maxLength` or the end, whichever
   * comes first; the page is rejected exactly when `minLength` is not below
   * that cut.
   */
  lemma GetArticleWindow(page: Page, category: string, excluded: seq<string>, minLength: int, maxLength: int)
    requires page.existing && 0 <= minLength && 0 <= maxLength
    ensures var raw := RawText(page, excluded);
      var bound := if maxLength < |raw| then maxLength else |raw|;
      var r := GetArticle(page, category, excluded, minLength, maxLength);
      (r.Some? <==> minLength < bound) &&
      (r.Some? ==> r.value == Record(category, raw[minLength..bound], bound - minLength))
  {
  }

  /** Summary "Hello " and one kept section "World", window [0:10000]: text "Hello World", length 11. */
  lemma GetArticleHelloWorld()
    ensures GetArticle(Page("Gruss", 0, true, "Hello ", [Section("Body", "World", [])]), "Kategorie:Test",
                       ["Literatur", "Weblinks"], 0, 10000)
            == Some(Record("Kategorie:Test", "Hello World", 11))
  {
    var excluded := ["Literatur", "Weblinks"];
    var page := Page("Gruss", 0, true, "Hello ", [Section("Body", "World", [])]);
    ExtractSingle(excluded, page.sections[0]);
    assert "Body" !in excluded;
    assert Extract(excluded, page.sections) == "World";
    assert RawText(page, excluded) == "Hello World";
    assert "Hello World"[0..11] == "Hello World";
    assert Slice("Hello World", 0, 10000) == "Hello World";
    assert GetArticle(page, "Kategorie:Test", excluded, 0, 10000) == Some(Record("Kategorie:Test", "Hello World", 11));
  }

  /** The window [5:8] of "0123456789" is "567": an offset and a cut, not a length test. */
  lemma SliceFiveToEight()
    ensures Slice("0123456789", 5, 8) == "567"
  {
  }

  /** A negative lower bound counts from the end of the text, as in Python. */
  lemma SliceNegativeStart()
    ensures Slice("0123456789", -3, 10000) == "789"
  {
  }
}
