/**
 * The application layer of src/main.rs that feeds the builder: the
 * panicking twins of the string helpers and the dispatch over the classed
 * elements of a document. A panic is an `Err` that ends the run.
 */
module App {
  import opened Wrappers
  import opened Errors
  import opened Digits
  import Utils
  import Books
  import BookBuilders
  import Poems
  import Documents

  /** One child element of the poem container: its `class` attribute, if any, and its inner HTML. */
  datatype Item = Item(cls: Option<string>, text: string)

  /** `parse_poem_num`: like `parse_poem_num_impl`, but the failure is a panic on `unwrap`. */
  function ParsePoemNum(s: string): (r: Result<U32, Error>)
    ensures r.Ok? <==> |Utils.NumberText(s)| > 0 && Value(Utils.NumberText(s)) <= U32_MAX
    ensures r.Ok? ==> r.value == Value(Utils.NumberText(s))
    ensures r.Err? ==> r.error.Parse?
  {
    Utils.ParsePoemNumImpl(s)
  }

  /** `parse_book_num`: like the helper in src/utils.rs, but a file name without two adjacent digits panics. */
  function ParseBookNum(name: string): (r: Result<U32, Error>)
    ensures r.Err? <==> forall i :: 0 <= i < |name| ==> !Utils.DigitPairAt(name, i)
    ensures r.Err? ==> r.error == UnexpectedFilename(name)
    ensures r.Ok? ==> r.value <= 99
    ensures r.Ok? ==> exists i :: Utils.DigitPairAt(name, i) && (forall j :: 0 <= j < i ==> !Utils.DigitPairAt(name, j))
                                  && r.value == 10 * DigitValue(name[i]) + DigitValue(name[i + 1])
  {
    Utils.ParseBookNum(name)
  }

  /** `re_remove_tags` (the copy in src/main.rs). */
  function RemoveTags(line: string): (r: string)
    ensures |r| <= |line|
    ensures '<' !in line ==> r == line
  {
    Utils.RemoveTags(line)
  }

  const NumberClass: string := "_7_number"
  const LongNumberClass: string := "_7_number-long"
  const PoemClass: string := "_7_poem"

  /**
   * What an element means to the builder: a number, a line, or nothing.
   * An element without a class attribute panics; a number that does not
   * parse panics.
   */
  function Classify(item: Item): (r: Result<Option<BookBuilders.Event>, Error>)
    ensures item.cls.None? ==> r == Err(Html(item.text))
    ensures item.cls == Some(NumberClass) || item.cls == Some(LongNumberClass) ==>
              match ParsePoemNum(item.text)
              case Ok(n) => r == Ok(Some(BookBuilders.Number(n)))
              case Err(e) => r == Err(e)
    ensures item.cls == Some(PoemClass) ==> r == Ok(Some(BookBuilders.Line(RemoveTags(item.text))))
    ensures item.cls.Some? && item.cls.value !in {NumberClass, LongNumberClass, PoemClass} ==> r == Ok(None)
  {
    match item.cls
    case None => Err(Html(item.text))
    case Some(c) =>
      if c == NumberClass || c == LongNumberClass then
        match ParsePoemNum(item.text)
        case Ok(n) => Ok(Some(BookBuilders.Number(n)))
        case Err(e) => Err(e)
      else if c == PoemClass then Ok(Some(BookBuilders.Line(RemoveTags(item.text))))
      else Ok(None)
  }

  /** One pass of the loop body in `parse_book`. */
  function Step(b: BookBuilders.BookBuilder, item: Item): Result<BookBuilders.BookBuilder, Error> {
    match Classify(item)
    case Err(e) => Err(e)
    case Ok(None) => Ok(b)
    case Ok(Some(e)) => BookBuilders.Apply(b, e)
  }

  /** The loop of `parse_book` over all elements, in document order. */
  function Fold(b: BookBuilders.BookBuilder, items: seq<Item>): Result<BookBuilders.BookBuilder, Error>
    decreases |items|
  {
    if |items| == 0 then Ok(b)
    else match Step(b, items[0])
      case Err(e) => Err(e)
      case Ok(b') => Fold(b', items[1..])
  }

  /** The builder invariant holds after any run of the loop that does not fail. */
  lemma {:induction false} FoldKeepsValid(b: BookBuilders.BookBuilder, items: seq<Item>)
    requires BookBuilders.Valid(b) && Fold(b, items).Ok?
    ensures BookBuilders.Valid(Fold(b, items).value)
    ensures Fold(b, items).value.book.nn == b.book.nn
    decreases |items|
  {
    if |items| > 0 {
      var b' := Step(b, items[0]).value;
      match Classify(items[0]) {
        case Ok(None) =>
        case Ok(Some(e)) =>
          BookBuilders.FeedKeepsValid(b, [e]);
          assert BookBuilders.Feed(b, [e]) == BookBuilders.Apply(b, e);
      }
      FoldKeepsValid(b', items[1..]);
    }
  }

  /**
   * `parse_book`: a fresh builder for the book, every element in order, then
   * `build`. A built book carries the given number and keys every poem by
   * its own number.
   */
  function ParseBook(bookNum: U32, items: seq<Item>): (r: Result<Books.Book, Error>)
    ensures |items| == 0 ==> r == Err(NoPoemsInTheBook(bookNum))
    ensures r.Ok? ==> r.value.nn == bookNum && Books.KeysMatch(r.value)
  {
    match Fold(BookBuilders.New(bookNum), items)
    case Err(e) => Err(e)
    case Ok(b) =>
      FoldKeepsValid(BookBuilders.New(bookNum), items);
      BookBuilders.BuildKeepsKeysMatch(b);
      BookBuilders.Build(b)
  }

  /** The events the elements stand for, when none of them fails to classify. */
  function Events(items: seq<Item>): seq<BookBuilders.Event>
    requires forall i :: 0 <= i < |items| ==> Classify(items[i]).Ok?
  {
    if |items| == 0 then []
    else
      (match Classify(items[0]).value
       case None => []
       case Some(e) => [e])
      + Events(items[1..])
  }

  /**
   * When every element has a class and every number parses, the loop is
   * exactly the builder fed with the events the elements stand for.
   */
  lemma {:induction false} FoldIsFeed(b: BookBuilders.BookBuilder, items: seq<Item>)
    requires forall i :: 0 <= i < |items| ==> Classify(items[i]).Ok?
    ensures Fold(b, items) == BookBuilders.Feed(b, Events(items))
    decreases |items|
  {
    if |items| > 0 {
      var head := match Classify(items[0]).value case None => [] case Some(e) => [e];
      assert Events(items) == head + Events(items[1..]);
      BookBuilders.FeedAppend(b, head, Events(items[1..]));
      match Step(b, items[0])
      case Err(e) =>
      case Ok(b') =>
        FoldIsFeed(b', items[1..]);
    }
  }

  /**
   * `parse_book` end to end: when every element classifies, it is `build`
   * applied to the builder fed with the elements' events, and the feed's
   * failure otherwise.
   */
  lemma ParseBookIsBuildOfFeed(bookNum: U32, items: seq<Item>)
    requires forall i :: 0 <= i < |items| ==> Classify(items[i]).Ok?
    ensures var fed := BookBuilders.Feed(BookBuilders.New(bookNum), Events(items));
            fed.Err? ==> ParseBook(bookNum, items) == Err(fed.error)
    ensures var fed := BookBuilders.Feed(BookBuilders.New(bookNum), Events(items));
            fed.Ok? ==> ParseBook(bookNum, items) == BookBuilders.Build(fed.value)
  {
    FoldIsFeed(BookBuilders.New(bookNum), items);
  }

  /**
   * The pairing guarantee at the entry point: elements that stand for a
   * document in which every number appears exactly twice build a book with
   * one poem per number, its original the first section and its
   * translation the second.
   */
  lemma ParseBookPairs(bookNum: U32, items: seq<Item>, ps: seq<Documents.Part>)
    requires forall i :: 0 <= i < |items| ==> Classify(items[i]).Ok?
    requires Events(items) == Documents.Document(ps)
    requires |ps| > 0
    requires forall id :: Documents.Count(ps, id) == 0 || Documents.Count(ps, id) == 2
    ensures ParseBook(bookNum, items).Ok?
    ensures var book := ParseBook(bookNum, items).value;
            && book.nn == bookNum
            && (forall id :: id in book.poems <==> Documents.Count(ps, id) == 2)
            && (forall id :: id in book.poems ==>
                  book.poems[id] == Poems.New(id, Documents.FirstLines(ps, id), Documents.SecondLines(ps, id)))
  {
    ParseBookIsBuildOfFeed(bookNum, items);
    Documents.WellFormedDocumentBuilds(bookNum, ps);
  }

  lemma ParsePoemNumExamples()
    ensures ParsePoemNum("03,456.") == Ok(3456)
    ensures ParsePoemNum("01&#160;000.") == Ok(1000)
  {
    Utils.ParsePoemNumWithComma();
    Utils.ParsePoemNumWithEntity();
  }

  lemma ParseBookNumExample()
    ensures ParseBookNum("Vol.07.html") == Ok(7)
  {
    Utils.ParseBookNumExample();
  }
}
