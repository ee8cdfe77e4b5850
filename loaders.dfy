/** Document loading (ingest/loaders.py): the loader is chosen by the
    lower-cased file suffix, and slide decks are turned into one document per
    slide that has text. The file parsers themselves are foreign readers. */
module Loaders {
  import opened Common
  import opened Text

  /** The document formats the loader dispatches to. */
  datatype Format = Pdf | Docx | Slides | PlainText

  /** A shape on a slide: its `text` attribute, or None for shapes without one. */
  datatype Shape = Shape(text: Option<string>)

  type Slide = seq<Shape>

  /** The foreign readers: PyPDFLoader, Docx2txtLoader, TextLoader (UTF-8), and
      python-pptx's `Presentation(path).slides`. Each may raise. */
  datatype Readers = Readers(
    pdf: string -> Result<seq<Document>, Error>,
    docx: string -> Result<seq<Document>, Error>,
    text: string -> Result<seq<Document>, Error>,
    presentation: string -> Result<seq<Slide>, Error>)

  /** The format for a path, by its lower-cased suffix, or the ValueError. */
  function LoaderFor(path: string): (r: Result<Format, Error>)
  {
    FormatOf(Lower(Suffix(path)))
  }

  /** The format for a lower-cased suffix, or the ValueError naming it. */
  function FormatOf(ext: string): (r: Result<Format, Error>)
  {
    if ext == ".pdf" then Ok(Pdf)
    else if ext == ".docx" then Ok(Docx)
    else if ext == ".pptx" || ext == ".ppt" then Ok(Slides)
    else if ext == ".txt" || ext == ".md" then Ok(PlainText)
    else Err(Error(ValueError, "Unsupported file type: " + ext))
  }

  /** Exactly the six suffixes are supported, whatever their case; every other
      suffix, the empty one included, is a ValueError naming the lower-cased suffix. */
  lemma LoaderForSupported(path: string)
    ensures var ext := Lower(Suffix(path));
      (LoaderFor(path) == Ok(Pdf) <==> ext == ".pdf")
      && (LoaderFor(path) == Ok(Docx) <==> ext == ".docx")
      && (LoaderFor(path) == Ok(Slides) <==> ext == ".pptx" || ext == ".ppt")
      && (LoaderFor(path) == Ok(PlainText) <==> ext == ".txt" || ext == ".md")
      && (LoaderFor(path).Err? <==> ext !in {".pdf", ".docx", ".pptx", ".ppt", ".txt", ".md"})
      && (LoaderFor(path).Err? ==> LoaderFor(path).error == Error(ValueError, "Unsupported file type: " + ext))
  {
  }

  /** A path without a suffix is unsupported. */
  lemma NoSuffixUnsupported(path: string)
    requires Suffix(path) == ""
    ensures LoaderFor(path) == Err(Error(ValueError, "Unsupported file type: "))
  {
    assert Lower("") == "";
    assert "Unsupported file type: " + "" == "Unsupported file type: ";
  }

  lemma LowerIdempotent(s: string)
    ensures Lower(Lower(s)) == Lower(s)
  {
  }

  /** Matching is case-insensitive: lower-casing the path chooses the same loader
      and raises the same error. */
  lemma LoaderForIgnoresCase(path: string)
    ensures LoaderFor(Lower(path)) == LoaderFor(path)
  {
    SuffixOfLower(path);
    LowerIdempotent(Suffix(path));
    assert Lower(Suffix(Lower(path))) == Lower(Suffix(path));
  }

  /** `load_documents`: the documents of one file, read by the loader its suffix selects. */
  function LoadDocuments(path: string, readers: Readers): (r: Result<seq<Document>, Error>)
    ensures LoaderFor(path).Err? ==> r == Err(LoaderFor(path).error)
    ensures LoaderFor(path) == Ok(Pdf) ==> r == readers.pdf(path)
    ensures LoaderFor(path) == Ok(Docx) ==> r == readers.docx(path)
    ensures LoaderFor(path) == Ok(PlainText) ==> r == readers.text(path)
    ensures LoaderFor(path) == Ok(Slides) ==>
      r == match readers.presentation(path)
           case Ok(deck) => Ok(SlideDocs(path, deck))
           case Err(e) => Err(e)
  {
    match LoaderFor(path)
    case Err(e) => Err(e)
    case Ok(Pdf) => readers.pdf(path)
    case Ok(Docx) => readers.docx(path)
    case Ok(PlainText) => readers.text(path)
    case Ok(Slides) =>
      match readers.presentation(path)
      case Ok(deck) => Ok(SlideDocs(path, deck))
      case Err(e) => Err(e)
  }

  /** The shape texts a slide contributes: those present and non-empty, in shape order. */
  function ShapeTexts(slide: Slide): seq<string>
    decreases |slide|
  {
    if |slide| == 0 then []
    else
      var s := slide[|slide| - 1];
      ShapeTexts(slide[..|slide| - 1]) + (if s.text.Some? && s.text.value != "" then [s.text.value] else [])
  }

  /** The stripped texts that are not blank, in order. */
  function Cleaned(texts: seq<string>): seq<string>
    decreases |texts|
  {
    if |texts| == 0 then []
    else
      var t := texts[|texts| - 1];
      Cleaned(texts[..|texts| - 1]) + (if t != "" && Strip(t) != "" then [Strip(t)] else [])
  }

  /** The page content of a slide: its cleaned shape texts, one per line. */
  function SlideContent(slide: Slide): string
  {
    Join("\n", Cleaned(ShapeTexts(slide)))
  }

  function SlideMeta(path: string, i: int): Metadata
  {
    map["source" := Str(path), "slide" := Int(i)]
  }

  /** The slide number recorded in a document's metadata (0 when there is none). */
  function SlideOf(d: Document): int
  {
    if "slide" in d.metadata && d.metadata["slide"].Int? then d.metadata["slide"].i else 0
  }

  /** The content of every slide, in slide order. */
  function Contents(deck: seq<Slide>): (cs: seq<string>)
    ensures |cs| == |deck|
    ensures forall i :: 0 <= i < |deck| ==> cs[i] == SlideContent(deck[i])
  {
    seq(|deck|, i requires 0 <= i < |deck| => SlideContent(deck[i]))
  }

  /** A document for each non-empty content, numbered by its position from 1. */
  function Numbered(path: string, contents: seq<string>): seq<Document>
    decreases |contents|
  {
    if |contents| == 0 then []
    else
      var n := |contents|;
      var c := contents[n - 1];
      Numbered(path, contents[..n - 1]) + (if c != "" then [Document(c, SlideMeta(path, n))] else [])
  }

  /** What `_load_pptx` returns for a deck: for slide i (counted from 1), a
      document when its content is non-empty. */
  function SlideDocs(path: string, deck: seq<Slide>): seq<Document>
  {
    Numbered(path, Contents(deck))
  }

  /** `_load_pptx`: walks the slides, gathers each slide's shape texts, and emits
      a document for every slide whose content is not empty. */
  method LoadSlides(path: string, deck: seq<Slide>) returns (docs: seq<Document>)
    ensures docs == SlideDocs(path, deck)
  {
    docs := [];
    var i := 1;
    while i <= |deck|
      invariant 1 <= i <= |deck| + 1
      invariant docs == Numbered(path, Contents(deck)[..i - 1])
    {
      var slide := deck[i - 1];
      var texts: seq<string> := [];
      var j := 0;
      while j < |slide|
        invariant 0 <= j <= |slide|
        invariant texts == ShapeTexts(slide[..j])
      {
        var shape := slide[j];
        assert slide[..j + 1][..j] == slide[..j];
        if shape.text.Some? && shape.text.value != "" {
          texts := texts + [shape.text.value];
        }
        j := j + 1;
      }
      assert slide[..j] == slide;
      var content := Join("\n", Cleaned(texts));
      assert Contents(deck)[..i][..i - 1] == Contents(deck)[..i - 1];
      assert Contents(deck)[i - 1] == content;
      if content != "" {
        docs := docs + [Document(content, SlideMeta(path, i))];
      }
      i := i + 1;
    }
    assert Contents(deck)[..i - 1] == Contents(deck);
  }

  /** Every cleaned text is non-empty and neither starts nor ends with whitespace. */
  lemma {:induction false} CleanedTrimmed(texts: seq<string>)
    ensures forall k :: 0 <= k < |Cleaned(texts)| ==>
      Cleaned(texts)[k] != [] && !IsSpace(Cleaned(texts)[k][0])
      && !IsSpace(Cleaned(texts)[k][|Cleaned(texts)[k]| - 1])
    decreases |texts|
  {
    if |texts| > 0 {
      var init, t := texts[..|texts| - 1], texts[|texts| - 1];
      CleanedTrimmed(init);
      var ci, c := Cleaned(init), Cleaned(texts);
      forall k | 0 <= k < |c|
        ensures c[k] != [] && !IsSpace(c[k][0]) && !IsSpace(c[k][|c[k]| - 1])
      {
        if k < |ci| {
          assert c[k] == ci[k];
        } else {
          StripEdges(t);
          assert c[k] == Strip(t);
        }
      }
    }
  }

  /** Cleaning drops a text exactly when it is blank. */
  lemma {:induction false} CleanedEmptyIff(texts: seq<string>)
    ensures Cleaned(texts) == [] <==> forall k :: 0 <= k < |texts| ==> AllSpace(texts[k])
    decreases |texts|
  {
    if |texts| > 0 {
      var init := texts[..|texts| - 1];
      var t := texts[|texts| - 1];
      CleanedEmptyIff(init);
      StripEmptyIff(t);
      if Cleaned(texts) == [] {
        forall k | 0 <= k < |texts| ensures AllSpace(texts[k]) {
          if k < |init| { assert texts[k] == init[k]; }
        }
      } else if Cleaned(init) != [] {
        var k :| 0 <= k < |init| && !AllSpace(init[k]);
        assert texts[k] == init[k];
      }
    }
  }

  /** A shape's text is kept exactly when it is present and non-empty. */
  lemma {:induction false} ShapeTextsBlankIff(slide: Slide)
    ensures (forall k :: 0 <= k < |ShapeTexts(slide)| ==> AllSpace(ShapeTexts(slide)[k]))
        <==> (forall k :: 0 <= k < |slide| ==> slide[k].text.None? || AllSpace(slide[k].text.value))
    decreases |slide|
  {
    if |slide| > 0 {
      var init := slide[..|slide| - 1];
      var s := slide[|slide| - 1];
      ShapeTextsBlankIff(init);
      var ti := ShapeTexts(init);
      var tt := ShapeTexts(slide);
      assert tt[..|ti|] == ti;
      if forall k :: 0 <= k < |tt| ==> AllSpace(tt[k]) {
        forall k | 0 <= k < |slide| ensures slide[k].text.None? || AllSpace(slide[k].text.value) {
          if k < |init| {
            assert forall m :: 0 <= m < |ti| ==> AllSpace(ti[m]) by {
              forall m | 0 <= m < |ti| ensures AllSpace(ti[m]) { assert ti[m] == tt[m]; }
            }
            assert slide[k] == init[k];
          } else if s.text.Some? && s.text.value != "" {
            assert tt[|ti|] == s.text.value;
          }
        }
      } else {
        var k :| 0 <= k < |tt| && !AllSpace(tt[k]);
        if k < |ti| {
          assert tt[k] == ti[k];
          var m :| 0 <= m < |init| && !(init[m].text.None? || AllSpace(init[m].text.value));
          assert slide[m] == init[m];
        }
      }
    }
  }

  /** A slide yields no document exactly when none of its shapes carries text
      other than whitespace; when it does, the content is the cleaned texts one
      per line, without leading or trailing whitespace. */
  lemma SlideContentMeaning(slide: Slide)
    ensures SlideContent(slide) == ""
        <==> forall k :: 0 <= k < |slide| ==> slide[k].text.None? || AllSpace(slide[k].text.value)
    ensures var c := SlideContent(slide);
      c == "" || (!IsSpace(c[0]) && !IsSpace(c[|c| - 1]))
  {
    var texts := ShapeTexts(slide);
    var parts := Cleaned(texts);
    assert SlideContent(slide) == Join("\n", parts);
    ShapeTextsBlankIff(slide);
    CleanedEmptyIff(texts);
    if parts != [] {
      CleanedTrimmed(texts);
      assert parts[0] != [];
      JoinEnds("\n", parts);
    }
  }

  /** At most one document per content, each carrying exactly the source path
      and the 1-based position of its content, and that content. */
  lemma {:induction false} NumberedFromContents(path: string, cs: seq<string>)
    ensures |Numbered(path, cs)| <= |cs|
    ensures forall j :: 0 <= j < |Numbered(path, cs)| ==>
      var d := Numbered(path, cs)[j];
      1 <= SlideOf(d) <= |cs| && d.metadata == SlideMeta(path, SlideOf(d))
      && d.content == cs[SlideOf(d) - 1] && d.content != ""
    decreases |cs|
  {
    if |cs| > 0 {
      var init := cs[..|cs| - 1];
      NumberedFromContents(path, init);
      var di := Numbered(path, init);
      var dd := Numbered(path, cs);
      forall j | 0 <= j < |dd|
        ensures 1 <= SlideOf(dd[j]) <= |cs| && dd[j].metadata == SlideMeta(path, SlideOf(dd[j]))
          && dd[j].content == cs[SlideOf(dd[j]) - 1] && dd[j].content != ""
      {
        if j < |di| {
          assert dd[j] == di[j];
          assert cs[SlideOf(di[j]) - 1] == init[SlideOf(di[j]) - 1];
        }
      }
    }
  }

  /** Numbers strictly increase along the documents. */
  lemma {:induction false} NumberedOrdered(path: string, cs: seq<string>)
    ensures forall j, j' :: 0 <= j < j' < |Numbered(path, cs)| ==>
      SlideOf(Numbered(path, cs)[j]) < SlideOf(Numbered(path, cs)[j'])
    decreases |cs|
  {
    if |cs| > 0 {
      var init := cs[..|cs| - 1];
      NumberedOrdered(path, init);
      NumberedFromContents(path, init);
      var di := Numbered(path, init);
      var dd := Numbered(path, cs);
      forall j, j' | 0 <= j < j' < |dd| ensures SlideOf(dd[j]) < SlideOf(dd[j']) {
        assert dd[j] == di[j];
        if j' < |di| { assert dd[j'] == di[j']; }
      }
    }
  }

  /** A non-empty content at position i has a document numbered i. */
  lemma {:induction false} NumberedHas(path: string, cs: seq<string>, i: int) returns (j: nat)
    requires 1 <= i <= |cs| && cs[i - 1] != ""
    ensures j < |Numbered(path, cs)| && SlideOf(Numbered(path, cs)[j]) == i
    decreases |cs|
  {
    var init := cs[..|cs| - 1];
    var di := Numbered(path, init);
    var dd := Numbered(path, cs);
    if i == |cs| {
      j := |di|;
      assert dd[j] == Document(cs[|cs| - 1], SlideMeta(path, |cs|));
    } else {
      assert init[i - 1] == cs[i - 1];
      j := NumberedHas(path, init, i);
      assert dd[j] == di[j];
    }
  }

  /** Position i has a document exactly when its content is non-empty. */
  lemma NumberedComplete(path: string, cs: seq<string>, i: int)
    requires 1 <= i <= |cs|
    ensures (exists j :: 0 <= j < |Numbered(path, cs)| && SlideOf(Numbered(path, cs)[j]) == i)
        <==> cs[i - 1] != ""
  {
    NumberedFromContents(path, cs);
    if cs[i - 1] != "" {
      var j := NumberedHas(path, cs, i);
    }
  }

  /** At most one document per slide, each carrying exactly the source path and
      the number of its slide, counted from 1, and that slide's content. */
  lemma SlideDocsFromSlides(path: string, deck: seq<Slide>)
    ensures |SlideDocs(path, deck)| <= |deck|
    ensures forall j :: 0 <= j < |SlideDocs(path, deck)| ==>
      var d := SlideDocs(path, deck)[j];
      1 <= SlideOf(d) <= |deck| && d.metadata == SlideMeta(path, SlideOf(d))
      && d.content == SlideContent(deck[SlideOf(d) - 1]) && d.content != ""
  {
    NumberedFromContents(path, Contents(deck));
  }

  /** Documents come in slide order: their slide numbers strictly increase. */
  lemma SlideDocsOrdered(path: string, deck: seq<Slide>)
    ensures forall j, j' :: 0 <= j < j' < |SlideDocs(path, deck)| ==>
      SlideOf(SlideDocs(path, deck)[j]) < SlideOf(SlideDocs(path, deck)[j'])
  {
    NumberedOrdered(path, Contents(deck));
  }

  /** Slide i has a document exactly when its content is non-empty: skipped
      slides still use up their number. */
  lemma SlideDocsComplete(path: string, deck: seq<Slide>, i: int)
    requires 1 <= i <= |deck|
    ensures (exists j :: 0 <= j < |SlideDocs(path, deck)| && SlideOf(SlideDocs(path, deck)[j]) == i)
        <==> SlideContent(deck[i - 1]) != ""
  {
    var cs := Contents(deck);
    var dd := SlideDocs(path, deck);
    NumberedComplete(path, cs, i);
    assert cs[i - 1] == SlideContent(deck[i - 1]);
    assert dd == Numbered(path, cs);
    if exists j :: 0 <= j < |dd| && SlideOf(dd[j]) == i {
      var j :| 0 <= j < |dd| && SlideOf(dd[j]) == i;
      assert 0 <= j < |Numbered(path, cs)| && SlideOf(Numbered(path, cs)[j]) == i;
    }
    if cs[i - 1] != "" {
      var j :| 0 <= j < |Numbered(path, cs)| && SlideOf(Numbered(path, cs)[j]) == i;
      assert 0 <= j < |dd| && SlideOf(dd[j]) == i;
    }
  }
}
