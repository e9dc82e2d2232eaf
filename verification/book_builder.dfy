/**
 * The poem-pairing state machine (src/book_builder.rs). A draft is open
 * after the first number; closing it either pairs it with the waiting draft
 * of the same number (the waiting one is the original, `en`; the closing one
 * the translation, `ru`) or files it to wait for its partner. The source
 * panics on every anomaly; here each panic is an `Err` that ends the run.
 */
module BookBuilders {
  import opened Wrappers
  import opened Errors
  import TmpPoems
  import Poems
  import Books
  import Seqs

  datatype BookBuilder = BookBuilder(
    tmpPoem: Option<TmpPoems.TmpPoem>,          // the open draft
    tmpPoems: map<U32, TmpPoems.TmpPoem>,       // closed drafts waiting for a partner
    book: Books.Book)

  /**
   * The invariant every operation keeps: nothing waits for a partner that is
   * already a finished poem, and every key names its draft or poem.
   */
  ghost predicate Valid(b: BookBuilder) {
    && b.tmpPoems.Keys !! b.book.poems.Keys
    && (forall k :: k in b.tmpPoems ==> b.tmpPoems[k].nn == k)
    && Books.KeysMatch(b.book)
  }

  /** `BookBuilder::new`: no open draft, nobody waiting, an empty book `nn`. */
  function New(nn: U32): (b: BookBuilder)
    ensures b.tmpPoem.None? && |b.tmpPoems| == 0
    ensures b.book.nn == nn && |b.book.poems| == 0
    ensures Valid(b)
  {
    BookBuilder(None, map[], Books.New(nn))
  }

  /** The poem made from the waiting original of `t.nn` and its translation `t`. */
  function PairedPoem(b: BookBuilder, t: TmpPoems.TmpPoem): Poems.Poem
    requires t.nn in b.tmpPoems
  {
    Poems.New(t.nn, b.tmpPoems[t.nn].lines, t.lines)
  }

  /**
   * `proc_number`: close the open draft, if any, and open a fresh one numbered
   * `newNn`. Closing fails when the number is already a finished poem.
   */
  function ProcNumber(b: BookBuilder, newNn: U32): (r: Result<BookBuilder, Error>)
    ensures r.Err? <==> b.tmpPoem.Some? && b.tmpPoem.value.nn in b.book.poems
    ensures r.Err? ==> r.error == DuplicatePoem(b.tmpPoem.value.nn)
    ensures r.Ok? ==> r.value.tmpPoem == Some(TmpPoems.TmpPoem(newNn, []))
    ensures r.Ok? ==> r.value.book.nn == b.book.nn
    // Nothing to close: only the draft changes.
    ensures b.tmpPoem.None? ==> r.Ok? && r.value.tmpPoems == b.tmpPoems && r.value.book == b.book
    // The partner was waiting: it leaves the pending map and the pair becomes a poem.
    ensures r.Ok? && b.tmpPoem.Some? && b.tmpPoem.value.nn in b.tmpPoems ==>
              var t := b.tmpPoem.value;
              && r.value.tmpPoems.Keys == b.tmpPoems.Keys - {t.nn}
              && (forall k :: k in r.value.tmpPoems ==> r.value.tmpPoems[k] == b.tmpPoems[k])
              && r.value.book.poems.Keys == b.book.poems.Keys + {t.nn}
              && r.value.book.poems[t.nn].nn == t.nn
              && r.value.book.poems[t.nn].en == b.tmpPoems[t.nn].lines
              && r.value.book.poems[t.nn].ru == t.lines
              && (forall k :: k in b.book.poems ==> r.value.book.poems[k] == b.book.poems[k])
    // No partner yet: the draft waits under its own number; the book is unchanged.
    ensures r.Ok? && b.tmpPoem.Some? && b.tmpPoem.value.nn !in b.tmpPoems ==>
              var t := b.tmpPoem.value;
              && r.value.tmpPoems.Keys == b.tmpPoems.Keys + {t.nn}
              && r.value.tmpPoems[t.nn] == t
              && (forall k :: k in b.tmpPoems ==> r.value.tmpPoems[k] == b.tmpPoems[k])
              && r.value.book == b.book
  {
    match b.tmpPoem
    case None =>
      Ok(b.(tmpPoem := Some(TmpPoems.TmpPoem(newNn, []))))
    case Some(t) =>
      if t.nn in b.book.poems then Err(DuplicatePoem(t.nn))
      else if t.nn in b.tmpPoems then
        Ok(BookBuilder(Some(TmpPoems.TmpPoem(newNn, [])), b.tmpPoems - {t.nn}, Books.Add(b.book, PairedPoem(b, t))))
      else
        Ok(BookBuilder(Some(TmpPoems.TmpPoem(newNn, [])), b.tmpPoems[t.nn := t], b.book))
  }

  /** `proc_line`: the line joins the open draft; without one it is an error. */
  function ProcLine(b: BookBuilder, line: string): (r: Result<BookBuilder, Error>)
    ensures r.Err? <==> b.tmpPoem.None?
    ensures r.Err? ==> r.error == CanNotAddLinePoemHasNoNumber(line)
    ensures r.Ok? ==> && r.value.tmpPoem.Some?
                      && r.value.tmpPoem.value.nn == b.tmpPoem.value.nn
                      && r.value.tmpPoem.value.lines == b.tmpPoem.value.lines + [line]
                      && r.value.tmpPoems == b.tmpPoems
                      && r.value.book == b.book
  {
    match b.tmpPoem
    case Some(t) => Ok(b.(tmpPoem := Some(TmpPoems.Add(t, line))))
    case None => Err(CanNotAddLinePoemHasNoNumber(line))
  }

  /**
   * `build`: close the last draft, which must find its waiting partner, and
   * hand out the book. Drafts still waiting for other numbers are dropped.
   */
  function Build(b: BookBuilder): (r: Result<Books.Book, Error>)
    ensures r.Ok? <==> b.tmpPoem.Some? && b.tmpPoem.value.nn !in b.book.poems && b.tmpPoem.value.nn in b.tmpPoems
    ensures b.tmpPoem.None? ==> r == Err(NoPoemsInTheBook(b.book.nn))
    ensures b.tmpPoem.Some? && b.tmpPoem.value.nn in b.book.poems ==>
              r == Err(DuplicatePoem(b.tmpPoem.value.nn))
    ensures b.tmpPoem.Some? && b.tmpPoem.value.nn !in b.book.poems && b.tmpPoem.value.nn !in b.tmpPoems ==>
              r == Err(NoTranslationForPoem(b.tmpPoem.value.nn))
    ensures r.Ok? ==>
              var t := b.tmpPoem.value;
              && r.value.nn == b.book.nn
              && r.value.poems.Keys == b.book.poems.Keys + {t.nn}
              && r.value.poems[t.nn].nn == t.nn
              && r.value.poems[t.nn].en == b.tmpPoems[t.nn].lines
              && r.value.poems[t.nn].ru == t.lines
              && (forall k :: k in b.book.poems ==> r.value.poems[k] == b.book.poems[k])
  {
    match b.tmpPoem
    case Some(t) =>
      if t.nn in b.book.poems then Err(DuplicatePoem(t.nn))
      else if t.nn in b.tmpPoems then Ok(Books.Add(b.book, PairedPoem(b, t)))
      else Err(NoTranslationForPoem(t.nn))
    case None => Err(NoPoemsInTheBook(b.book.nn))
  }

  lemma ProcNumberKeepsValid(b: BookBuilder, newNn: U32)
    requires Valid(b) && ProcNumber(b, newNn).Ok?
    ensures Valid(ProcNumber(b, newNn).value)
  {
  }

  lemma ProcLineKeepsValid(b: BookBuilder, line: string)
    requires Valid(b) && ProcLine(b, line).Ok?
    ensures Valid(ProcLine(b, line).value)
  {
  }

  /** The built book still has every key naming its poem. */
  lemma BuildKeepsKeysMatch(b: BookBuilder)
    requires Valid(b)
    ensures Build(b).Ok? ==> Books.KeysMatch(Build(b).value)
  {
  }

  /** Drafts waiting at `build` for other numbers do not reach the book, and no error is raised for them. */
  lemma BuildDropsWaitingDrafts(b: BookBuilder)
    requires Valid(b) && b.tmpPoem.Some? && b.tmpPoem.value.nn in b.tmpPoems
    ensures Build(b).Ok?
    ensures forall k :: k in b.tmpPoems && k != b.tmpPoem.value.nn ==> k !in Build(b).value.poems
  {
  }

  /** The two kinds of call a document makes on the builder, in document order. */
  datatype Event = Number(nn: U32) | Line(text: string)

  /** One call on the builder. */
  function Apply(b: BookBuilder, e: Event): Result<BookBuilder, Error> {
    match e
    case Number(n) => ProcNumber(b, n)
    case Line(text) => ProcLine(b, text)
  }

  /** The calls of a whole document, in order; the first failure ends the run. */
  function Feed(b: BookBuilder, es: seq<Event>): Result<BookBuilder, Error>
    decreases |es|
  {
    if |es| == 0 then Ok(b)
    else match Apply(b, es[0])
      case Err(e) => Err(e)
      case Ok(b') => Feed(b', es[1..])
  }

  /** The invariant holds after any run of calls that does not fail. */
  lemma {:induction false} FeedKeepsValid(b: BookBuilder, es: seq<Event>)
    requires Valid(b) && Feed(b, es).Ok?
    ensures Valid(Feed(b, es).value)
    ensures Feed(b, es).value.book.nn == b.book.nn
    decreases |es|
  {
    if |es| > 0 {
      match es[0]
      case Number(n) =>
        ProcNumberKeepsValid(b, n);
        FeedKeepsValid(ProcNumber(b, n).value, es[1..]);
      case Line(text) =>
        ProcLineKeepsValid(b, text);
        FeedKeepsValid(ProcLine(b, text).value, es[1..]);
    }
  }

  /** Feeding two runs one after the other is feeding their concatenation. */
  lemma {:induction false} FeedAppend(b: BookBuilder, xs: seq<Event>, ys: seq<Event>)
    ensures Feed(b, xs + ys) == match Feed(b, xs) case Err(e) => Err(e) case Ok(b') => Feed(b', ys)
    decreases |xs|
  {
    if |xs| == 0 {
      assert xs + ys == ys;
    } else {
      assert (xs + ys)[1..] == xs[1..] + ys;
      match Apply(b, xs[0])
      case Err(e) =>
      case Ok(b') => FeedAppend(b', xs[1..], ys);
    }
  }

  /** One line event per text line. */
  function Lines(ls: seq<string>): (es: seq<Event>)
    ensures |es| == |ls|
    ensures forall i :: 0 <= i < |ls| ==> es[i] == Line(ls[i])
  {
    if |ls| == 0 then [] else [Line(ls[0])] + Lines(ls[1..])
  }

  /** A section of the document: a number followed by its lines. */
  function Section(nn: U32, ls: seq<string>): seq<Event> {
    [Number(nn)] + Lines(ls)
  }

  /** One line fed to an open draft is appended to it. */
  lemma LineStep(b: BookBuilder, line: string, rest: seq<Event>)
    requires b.tmpPoem.Some?
    ensures Feed(b, [Line(line)] + rest)
         == Feed(b.(tmpPoem := Some(TmpPoems.TmpPoem(b.tmpPoem.value.nn, b.tmpPoem.value.lines + [line]))), rest)
  {
    assert ([Line(line)] + rest)[0] == Line(line);
    assert ([Line(line)] + rest)[1..] == rest;
  }

  /** Lines fed to an open draft are appended to it, in order, and touch nothing else. */
  lemma {:induction false} LinesExtendDraft(b: BookBuilder, ls: seq<string>)
    requires b.tmpPoem.Some?
    ensures Feed(b, Lines(ls))
         == Ok(b.(tmpPoem := Some(TmpPoems.TmpPoem(b.tmpPoem.value.nn, b.tmpPoem.value.lines + ls))))
    decreases |ls|
  {
    var t := b.tmpPoem.value;
    if |ls| == 0 {
      assert t.lines + ls == t.lines;
    } else {
      var b' := b.(tmpPoem := Some(TmpPoems.TmpPoem(t.nn, t.lines + [ls[0]])));
      LineStep(b, ls[0], Lines(ls[1..]));
      LinesExtendDraft(b', ls[1..]);
      Seqs.AppendHead(t.lines, ls);
    }
  }

  /** A section opens a draft holding exactly the section's lines. */
  lemma SectionOpensDraft(b: BookBuilder, nn: U32, ls: seq<string>)
    requires ProcNumber(b, nn).Ok?
    ensures Feed(b, Section(nn, ls))
         == Ok(ProcNumber(b, nn).value.(tmpPoem := Some(TmpPoems.TmpPoem(nn, ls))))
  {
    var b' := ProcNumber(b, nn).value;
    assert Section(nn, ls)[0] == Number(nn) && Section(nn, ls)[1..] == Lines(ls);
    assert Feed(b, Section(nn, ls)) == Feed(b', Lines(ls));
    LinesExtendDraft(b', ls);
    assert [] + ls == ls;
  }

  /** After the originals of 1 and 2: 1 waits, 2 is open, the book is still empty. */
  lemma TwoOriginals(en1: seq<string>, en2: seq<string>)
    ensures var fed := Feed(New(7), Section(1, en1) + Section(2, en2));
            && fed.Ok?
            && fed.value.tmpPoem == Some(TmpPoems.TmpPoem(2, en2))
            && fed.value.tmpPoems.Keys == {1} && fed.value.tmpPoems[1].lines == en1
            && fed.value.book == Books.New(7)
  {
    var b0 := New(7);
    SectionOpensDraft(b0, 1, en1);
    var b1 := Feed(b0, Section(1, en1)).value;
    SectionOpensDraft(b1, 2, en2);
    FeedAppend(b0, Section(1, en1), Section(2, en2));
  }

  /** Then the translations of 1 and 2: poem 1 is finished, 2's original waits and its translation is open. */
  lemma TwoTranslations(b: BookBuilder, en1: seq<string>, en2: seq<string>, ru1: seq<string>, ru2: seq<string>)
    requires b.tmpPoem == Some(TmpPoems.TmpPoem(2, en2))
    requires b.tmpPoems.Keys == {1} && b.tmpPoems[1].lines == en1
    requires b.book == Books.New(7)
    ensures var fed := Feed(b, Section(1, ru1) + Section(2, ru2));
            && fed.Ok?
            && fed.value.tmpPoem == Some(TmpPoems.TmpPoem(2, ru2))
            && fed.value.tmpPoems.Keys == {2} && fed.value.tmpPoems[2].lines == en2
            && fed.value.book.nn == 7 && fed.value.book.poems.Keys == {1}
            && fed.value.book.poems[1].en == en1 && fed.value.book.poems[1].ru == ru1
  {
    SectionOpensDraft(b, 1, ru1);
    var b3 := Feed(b, Section(1, ru1)).value;
    assert b3.tmpPoems.Keys == {1, 2} && b3.tmpPoems[2].lines == en2 && b3.tmpPoems[1].lines == en1;
    SectionOpensDraft(b3, 2, ru2);
    FeedAppend(b, Section(1, ru1), Section(2, ru2));
  }

  /**
   * The builder after sections 1, 2, 1, 2 in book 7: poem 1 is finished, the
   * original of 2 waits, and the translation of 2 is the open draft.
   */
  lemma FourSections(en1: seq<string>, en2: seq<string>, ru1: seq<string>, ru2: seq<string>)
    ensures var fed := Feed(New(7), Section(1, en1) + Section(2, en2) + Section(1, ru1) + Section(2, ru2));
            && fed.Ok?
            && fed.value.tmpPoem == Some(TmpPoems.TmpPoem(2, ru2))
            && fed.value.tmpPoems.Keys == {2} && fed.value.tmpPoems[2].lines == en2
            && fed.value.book.nn == 7 && fed.value.book.poems.Keys == {1}
            && fed.value.book.poems[1].en == en1 && fed.value.book.poems[1].ru == ru1
  {
    var xs, ys := Section(1, en1) + Section(2, en2), Section(1, ru1) + Section(2, ru2);
    TwoOriginals(en1, en2);
    TwoTranslations(Feed(New(7), xs).value, en1, en2, ru1, ru2);
    FeedAppend(New(7), xs, ys);
    Seqs.AppendAssoc(xs, Section(1, ru1), Section(2, ru2));
  }

  /**
   * The source's test, for any line contents: sections 1, 2, 1, 2 in book 7
   * build into exactly poems 1 and 2, the first section of each number as
   * the original and the second as the translation.
   */
  lemma TwoPoemScenario(en1: seq<string>, en2: seq<string>, ru1: seq<string>, ru2: seq<string>)
    ensures var fed := Feed(New(7), Section(1, en1) + Section(2, en2) + Section(1, ru1) + Section(2, ru2));
            && fed.Ok?
            && Build(fed.value).Ok?
            && Build(fed.value).value.nn == 7
            && Build(fed.value).value.poems.Keys == {1, 2}
            && Build(fed.value).value.poems[1].en == en1 && Build(fed.value).value.poems[1].ru == ru1
            && Build(fed.value).value.poems[2].en == en2 && Build(fed.value).value.poems[2].ru == ru2
  {
    FourSections(en1, en2, ru1, ru2);
  }
}
