/**
 * Whole documents fed to the builder (src/book_builder.rs): a document is a
 * run of sections, each a number marker followed by its lines. When every
 * number appears exactly twice, the builder pairs each number's first
 * section (the original) with its second (the translation) and builds one
 * poem per number.
 */
module Documents {
  import opened Wrappers
  import opened Errors
  import TmpPoems
  import Poems
  import Books
  import Seqs
  import opened BookBuilders

  /** One section of a document: a poem number and the lines under it. */
  datatype Part = Part(nn: U32, lines: seq<string>)

  function Last(ps: seq<Part>): Part
    requires |ps| > 0
  {
    ps[|ps| - 1]
  }

  /** The calls a document makes on the builder, section after section. */
  function Document(ps: seq<Part>): seq<Event>
  {
    if |ps| == 0 then [] else Document(ps[..|ps| - 1]) + Section(Last(ps).nn, Last(ps).lines)
  }

  /** How many sections carry number `id`. */
  function Count(ps: seq<Part>, id: U32): nat
  {
    if |ps| == 0 then 0
    else Count(ps[..|ps| - 1], id) + (if Last(ps).nn == id then 1 else 0)
  }

  /** The lines of the first section numbered `id`. */
  function FirstLines(ps: seq<Part>, id: U32): seq<string>
    requires Count(ps, id) >= 1
  {
    if Count(ps[..|ps| - 1], id) >= 1 then FirstLines(ps[..|ps| - 1], id) else Last(ps).lines
  }

  /** The lines of the second section numbered `id`. */
  function SecondLines(ps: seq<Part>, id: U32): seq<string>
    requires Count(ps, id) >= 2
  {
    if Count(ps[..|ps| - 1], id) >= 2 then SecondLines(ps[..|ps| - 1], id) else Last(ps).lines
  }

  /**
   * The builder after the sections `closed` have all been closed, in book
   * `n`: a number seen once waits with its first section's lines, a number
   * seen twice is a finished poem of its two sections, and nothing else is
   * stored.
   */
  ghost predicate Tracks(b: BookBuilder, closed: seq<Part>, n: U32) {
    && b.book.nn == n
    && (forall id :: id in b.tmpPoems <==> Count(closed, id) == 1)
    && (forall id :: id in b.book.poems <==> Count(closed, id) == 2)
    && (forall id :: id in b.tmpPoems ==> b.tmpPoems[id] == TmpPoems.TmpPoem(id, FirstLines(closed, id)))
    && (forall id :: id in b.book.poems ==>
          b.book.poems[id] == Poems.New(id, FirstLines(closed, id), SecondLines(closed, id)))
  }

  /** Counting, and the first and second sections, after one more section. */
  lemma {:induction false} Snoc(ps: seq<Part>, x: Part)
    ensures (ps + [x])[..|ps|] == ps && Last(ps + [x]) == x
    ensures forall id :: Count(ps + [x], id) == Count(ps, id) + (if x.nn == id then 1 else 0)
  {
    assert (ps + [x])[..|ps|] == ps;
  }

  /** The first and second sections of `id` after one more section `x`. */
  lemma {:induction false} LinesSnoc(ps: seq<Part>, x: Part, id: U32)
    ensures Count(ps + [x], id) == Count(ps, id) + (if x.nn == id then 1 else 0)
    ensures Count(ps, id) >= 1 ==> FirstLines(ps + [x], id) == FirstLines(ps, id)
    ensures Count(ps, id) == 0 && x.nn == id ==> FirstLines(ps + [x], id) == x.lines
    ensures Count(ps, id) >= 2 ==> SecondLines(ps + [x], id) == SecondLines(ps, id)
    ensures Count(ps, id) == 1 && x.nn == id ==> SecondLines(ps + [x], id) == x.lines
  {
    assert (ps + [x])[..|ps|] == ps;
  }

  /** Closing a section whose number is new: it waits for its translation. */
  lemma {:induction false} CloseOriginal(b: BookBuilder, closed: seq<Part>, n: U32, y: Part, next: U32)
    requires Tracks(b, closed, n)
    requires b.tmpPoem == Some(TmpPoems.TmpPoem(y.nn, y.lines))
    requires Count(closed, y.nn) == 0
    ensures ProcNumber(b, next).Ok?
    ensures Tracks(ProcNumber(b, next).value, closed + [y], n)
  {
    var ss := closed + [y];
    var b' := ProcNumber(b, next).value;
    forall id ensures id in b'.tmpPoems <==> Count(ss, id) == 1 {
      LinesSnoc(closed, y, id);
    }
    forall id ensures id in b'.book.poems <==> Count(ss, id) == 2 {
      LinesSnoc(closed, y, id);
    }
    forall id | id in b'.tmpPoems
      ensures b'.tmpPoems[id] == TmpPoems.TmpPoem(id, FirstLines(ss, id))
    {
      LinesSnoc(closed, y, id);
      if id != y.nn {
        assert b'.tmpPoems[id] == b.tmpPoems[id];
      }
    }
    forall id | id in b'.book.poems
      ensures b'.book.poems[id] == Poems.New(id, FirstLines(ss, id), SecondLines(ss, id))
    {
      LinesSnoc(closed, y, id);
      assert b'.book.poems[id] == b.book.poems[id];
    }
  }

  /** Closing a section whose number was seen once: the pair becomes a poem. */
  lemma {:induction false} CloseTranslation(b: BookBuilder, closed: seq<Part>, n: U32, y: Part, next: U32)
    requires Tracks(b, closed, n)
    requires b.tmpPoem == Some(TmpPoems.TmpPoem(y.nn, y.lines))
    requires Count(closed, y.nn) == 1
    ensures ProcNumber(b, next).Ok?
    ensures Tracks(ProcNumber(b, next).value, closed + [y], n)
  {
    var ss := closed + [y];
    var b' := ProcNumber(b, next).value;
    forall id ensures id in b'.tmpPoems <==> Count(ss, id) == 1 {
      LinesSnoc(closed, y, id);
    }
    forall id ensures id in b'.book.poems <==> Count(ss, id) == 2 {
      LinesSnoc(closed, y, id);
    }
    forall id | id in b'.tmpPoems
      ensures b'.tmpPoems[id] == TmpPoems.TmpPoem(id, FirstLines(ss, id))
    {
      LinesSnoc(closed, y, id);
      assert b'.tmpPoems[id] == b.tmpPoems[id];
    }
    forall id | id in b'.book.poems
      ensures b'.book.poems[id] == Poems.New(id, FirstLines(ss, id), SecondLines(ss, id))
    {
      LinesSnoc(closed, y, id);
      if id != y.nn {
        assert b'.book.poems[id] == b.book.poems[id];
      }
    }
  }

  /**
   * Closing the open draft of section `y`, whose number has been closed at
   * most once before, succeeds and extends the tracked sections by `y`.
   */
  lemma {:induction false} CloseSection(b: BookBuilder, closed: seq<Part>, n: U32, y: Part, next: U32)
    requires Tracks(b, closed, n)
    requires b.tmpPoem == Some(TmpPoems.TmpPoem(y.nn, y.lines))
    requires Count(closed, y.nn) <= 1
    ensures ProcNumber(b, next).Ok?
    ensures Tracks(ProcNumber(b, next).value, closed + [y], n)
  {
    if Count(closed, y.nn) == 0 {
      CloseOriginal(b, closed, n, y, next);
    } else {
      CloseTranslation(b, closed, n, y, next);
    }
  }

  lemma {:induction false} DocumentSnoc(ps: seq<Part>, x: Part)
    ensures Document(ps + [x]) == Document(ps) + Section(x.nn, x.lines)
  {
    Snoc(ps, x);
  }

  /** The first section only opens its draft; nothing is closed yet. */
  lemma {:induction false} FirstSection(n: U32, x: Part)
    ensures Feed(New(n), Document([x])).Ok?
    ensures Feed(New(n), Document([x])).value.tmpPoem == Some(TmpPoems.TmpPoem(x.nn, x.lines))
    ensures Tracks(Feed(New(n), Document([x])).value, [], n)
  {
    DocumentSnoc([], x);
    assert [] + [x] == [x];
    Seqs.AppendEmpty(Document([]), Section(x.nn, x.lines));
    SectionOpensDraft(New(n), x.nn, x.lines);
  }

  /** A further section closes the previous one and opens its own draft. */
  lemma {:induction false} NextSection(n: U32, qs: seq<Part>, x: Part, b: BookBuilder)
    requires |qs| > 0
    requires Feed(New(n), Document(qs)) == Ok(b)
    requires b.tmpPoem == Some(TmpPoems.TmpPoem(Last(qs).nn, Last(qs).lines))
    requires Tracks(b, qs[..|qs| - 1], n)
    requires Count(qs[..|qs| - 1], Last(qs).nn) <= 1
    ensures Feed(New(n), Document(qs + [x])).Ok?
    ensures Feed(New(n), Document(qs + [x])).value.tmpPoem == Some(TmpPoems.TmpPoem(x.nn, x.lines))
    ensures Tracks(Feed(New(n), Document(qs + [x])).value, qs, n)
  {
    var y := Last(qs);
    assert qs == qs[..|qs| - 1] + [y];
    CloseSection(b, qs[..|qs| - 1], n, y, x.nn);
    SectionOpensDraft(b, x.nn, x.lines);
    DocumentSnoc(qs, x);
    FeedAppend(New(n), Document(qs), Section(x.nn, x.lines));
  }

  /** A number that appears at most twice in a document appears at most twice in any prefix. */
  lemma {:induction false} CountPrefix(qs: seq<Part>, x: Part)
    requires forall id :: Count(qs + [x], id) <= 2
    ensures forall id :: Count(qs, id) <= 2
    ensures Count(qs, x.nn) <= 1
  {
    Snoc(qs, x);
    forall id ensures Count(qs, id) <= 2 {
      assert Count(qs + [x], id) <= 2;
    }
    assert Count(qs + [x], x.nn) <= 2;
  }

  /** Building after the last section `x` of a well-formed document. */
  lemma {:induction false} BuildTracked(b: BookBuilder, qs: seq<Part>, x: Part, n: U32)
    requires b.tmpPoem == Some(TmpPoems.TmpPoem(x.nn, x.lines))
    requires Tracks(b, qs, n)
    requires Count(qs, x.nn) == 1
    ensures Build(b).Ok?
    ensures var book := Build(b).value;
            && book.nn == n
            && (forall id :: id in book.poems <==> Count(qs + [x], id) == 2)
            && (forall id :: id in book.poems ==>
                  book.poems[id] == Poems.New(id, FirstLines(qs + [x], id), SecondLines(qs + [x], id)))
  {
    var ss := qs + [x];
    var bk := Build(b).value;
    forall id ensures id in bk.poems <==> Count(ss, id) == 2 {
      LinesSnoc(qs, x, id);
    }
    forall id | id in bk.poems
      ensures bk.poems[id] == Poems.New(id, FirstLines(ss, id), SecondLines(ss, id))
    {
      LinesSnoc(qs, x, id);
      if id != x.nn {
        assert bk.poems[id] == b.book.poems[id];
      }
    }
  }

  /**
   * One more section after a document in which no number appears more than
   * twice: every section of the document is tracked and `x` is the draft.
   */
  lemma {:induction false} FeedThenSection(n: U32, ps: seq<Part>, x: Part)
    requires forall id :: Count(ps, id) <= 2
    ensures Feed(New(n), Document(ps + [x])).Ok?
    ensures Feed(New(n), Document(ps + [x])).value.tmpPoem == Some(TmpPoems.TmpPoem(x.nn, x.lines))
    ensures Tracks(Feed(New(n), Document(ps + [x])).value, ps, n)
  {
    if |ps| == 0 {
      assert ps + [x] == [x];
      FirstSection(n, x);
    } else {
      var qs, y := ps[..|ps| - 1], Last(ps);
      Snoc(qs, y);
      assert ps == qs + [y];
      CountPrefix(qs, y);
      FeedThenSection(n, qs, y);
      NextSection(n, ps, x, Feed(New(n), Document(ps)).value);
    }
  }

  /**
   * The pairing guarantee: when every number of a non-empty document appears
   * exactly twice, `build` succeeds and gives one poem per number, whose
   * original is its first section and whose translation is its second.
   */
  lemma {:induction false} WellFormedDocumentBuilds(n: U32, ps: seq<Part>)
    requires |ps| > 0
    requires forall id :: Count(ps, id) == 0 || Count(ps, id) == 2
    ensures Feed(New(n), Document(ps)).Ok?
    ensures Build(Feed(New(n), Document(ps)).value).Ok?
    ensures var book := Build(Feed(New(n), Document(ps)).value).value;
            && book.nn == n
            && (forall id :: id in book.poems <==> Count(ps, id) == 2)
            && (forall id :: id in book.poems ==>
                  book.poems[id] == Poems.New(id, FirstLines(ps, id), SecondLines(ps, id)))
  {
    var qs, x := ps[..|ps| - 1], Last(ps);
    Snoc(qs, x);
    assert ps == qs + [x];
    forall id ensures Count(ps, id) <= 2 {
      assert Count(ps, id) == 0 || Count(ps, id) == 2;
    }
    CountPrefix(qs, x);
    FeedThenSection(n, qs, x);
    BuildTracked(Feed(New(n), Document(ps)).value, qs, x, n);
  }

  /** A number's third section, when it is the last one, makes `build` fail. */
  lemma {:induction false} ThirdSectionLast(n: U32, ps: seq<Part>, x: Part)
    requires forall id :: Count(ps, id) <= 2
    requires Count(ps, x.nn) == 2
    ensures Feed(New(n), Document(ps + [x])).Ok?
    ensures Build(Feed(New(n), Document(ps + [x])).value) == Err(DuplicatePoem(x.nn))
  {
    FeedThenSection(n, ps, x);
  }

  /** A number's third section followed by any other section makes the feed fail. */
  lemma {:induction false} ThirdSectionInside(n: U32, ps: seq<Part>, x: Part, z: Part)
    requires forall id :: Count(ps, id) <= 2
    requires Count(ps, x.nn) == 2
    ensures Feed(New(n), Document(ps + [x] + [z])) == Err(DuplicatePoem(x.nn))
  {
    FeedThenSection(n, ps, x);
    var b := Feed(New(n), Document(ps + [x])).value;
    DocumentSnoc(ps + [x], z);
    FeedAppend(New(n), Document(ps + [x]), Section(z.nn, z.lines));
    assert Section(z.nn, z.lines)[0] == Number(z.nn);
    assert ProcNumber(b, z.nn) == Err(DuplicatePoem(x.nn));
  }

  /** A last section whose number appears nowhere before it has no translation. */
  lemma {:induction false} LoneLastSection(n: U32, ps: seq<Part>, x: Part)
    requires forall id :: Count(ps, id) <= 2
    requires Count(ps, x.nn) == 0
    ensures Feed(New(n), Document(ps + [x])).Ok?
    ensures Build(Feed(New(n), Document(ps + [x])).value) == Err(NoTranslationForPoem(x.nn))
  {
    FeedThenSection(n, ps, x);
  }
}
