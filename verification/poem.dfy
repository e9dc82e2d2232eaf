/**
 * The finished poem record (src/poem.rs): a number, its digit-grouped text,
 * the original (`en`) lines and the translated (`ru`) lines.
 */
module Poems {
  import opened Errors
  import opened Digits

  datatype Poem = Poem(nn: U32, nnStr: string, en: seq<string>, ru: seq<string>)

  /**
   * `rchunks(3).rev()`: cuts a string into blocks of three counted from the
   * right; only the leftmost block may be shorter.
   */
  function Groups(ds: string): (gs: seq<string>)
    ensures |gs| == (|ds| + 2) / 3
    ensures |gs| > 0 ==> 1 <= |gs[0]| <= 3
    ensures forall i :: 1 <= i < |gs| ==> |gs[i]| == 3
    decreases |ds|
  {
    if |ds| == 0 then []
    else if |ds| <= 3 then [ds]
    else Groups(ds[..|ds| - 3]) + [ds[|ds| - 3..]]
  }

  /** Concatenation of blocks without separator. */
  function Concat(gs: seq<string>): string {
    if |gs| == 0 then [] else gs[0] + Concat(gs[1..])
  }

  /** `join(sep)`: blocks with `sep` between neighbours. */
  function Join(gs: seq<string>, sep: string): string {
    if |gs| == 0 then []
    else if |gs| == 1 then gs[0]
    else gs[0] + sep + Join(gs[1..], sep)
  }

  /** `s` with every occurrence of `c` deleted. */
  function RemoveChar(s: string, c: char): string {
    if |s| == 0 then []
    else if s[0] == c then RemoveChar(s[1..], c)
    else [s[0]] + RemoveChar(s[1..], c)
  }

  /** `Poem::nn_str`: the decimal digits of `nn` grouped in threes from the right. */
  function NnStr(nn: U32, sep: string): string {
    Join(Groups(Decimal(nn)), sep)
  }

  /** `Poem::new`: the text grouped with a single space. */
  function New(nn: U32, en: seq<string>, ru: seq<string>): (p: Poem)
    ensures p.nn == nn && p.en == en && p.ru == ru
    ensures p.nnStr == NnStr(nn, " ")
    ensures RemoveChar(p.nnStr, ' ') == Decimal(nn)
  {
    NnStrDigits(nn, ' ');
    Poem(nn, NnStr(nn, " "), en, ru)
  }

  lemma {:induction false} ConcatAppend(a: seq<string>, b: seq<string>)
    ensures Concat(a + b) == Concat(a) + Concat(b)
  {
    if |a| > 0 {
      assert (a + b)[1..] == a[1..] + b;
      ConcatAppend(a[1..], b);
    } else {
      assert a + b == b;
    }
  }

  /** The blocks put back together are the original string. */
  lemma {:induction false} GroupsConcat(ds: string)
    ensures Concat(Groups(ds)) == ds
    decreases |ds|
  {
    if |ds| > 3 {
      var head := ds[..|ds| - 3];
      GroupsConcat(head);
      ConcatAppend(Groups(head), [ds[|ds| - 3..]]);
      assert Concat([ds[|ds| - 3..]]) == ds[|ds| - 3..];
      assert head + ds[|ds| - 3..] == ds;
    } else if |ds| > 0 {
      assert Concat([ds]) == ds + Concat([]);
    }
  }

  lemma {:induction false} RemoveCharAppend(a: string, b: string, c: char)
    ensures RemoveChar(a + b, c) == RemoveChar(a, c) + RemoveChar(b, c)
  {
    if |a| > 0 {
      assert (a + b)[1..] == a[1..] + b;
      RemoveCharAppend(a[1..], b, c);
    } else {
      assert a + b == b;
    }
  }

  lemma {:induction false} RemoveAbsentChar(s: string, c: char)
    requires c !in s
    ensures RemoveChar(s, c) == s
  {
    if |s| > 0 {
      RemoveAbsentChar(s[1..], c);
    }
  }

  /** Deleting a one-character separator from the joined text gives the plain concatenation. */
  lemma {:induction false} RemoveSeparator(gs: seq<string>, c: char)
    requires forall i :: 0 <= i < |gs| ==> c !in gs[i]
    ensures RemoveChar(Join(gs, [c]), c) == Concat(gs)
  {
    if |gs| == 1 {
      RemoveAbsentChar(gs[0], c);
      assert Concat(gs) == gs[0] + Concat([]);
    } else if |gs| > 1 {
      RemoveSeparator(gs[1..], c);
      RemoveCharAppend(gs[0] + [c], Join(gs[1..], [c]), c);
      RemoveCharAppend(gs[0], [c], c);
      RemoveAbsentChar(gs[0], c);
    }
  }

  lemma GroupsOfDigits(ds: string)
    requires AllDigits(ds)
    ensures Concat(Groups(ds)) == ds
    ensures forall i :: 0 <= i < |Groups(ds)| ==> AllDigits(Groups(ds)[i])
    decreases |ds|
  {
    GroupsConcat(ds);
    if |ds| > 3 {
      GroupsOfDigits(ds[..|ds| - 3]);
    }
  }

  /** Removing a non-digit separator from `nn_str(nn, sep)` gives the decimal text of `nn`. */
  lemma NnStrDigits(nn: U32, c: char)
    requires !IsDigit(c)
    ensures RemoveChar(NnStr(nn, [c]), c) == Decimal(nn)
  {
    var gs := Groups(Decimal(nn));
    GroupsOfDigits(Decimal(nn));
    forall i | 0 <= i < |gs|
      ensures c !in gs[i]
    {
      assert AllDigits(gs[i]);
    }
    RemoveSeparator(gs, c);
  }

  /** Numbers below 1000 have a single block, so no separator appears. */
  lemma NnStrBelowThousand(nn: U32, sep: string)
    requires nn < 1000
    ensures NnStr(nn, sep) == Decimal(nn)
  {
    DecimalLength(nn);
  }

  /** The block count is the digit count divided by three, rounded up. */
  lemma NnStrGroupCount(nn: U32)
    ensures |Groups(Decimal(nn))| == (|Decimal(nn)| + 2) / 3
    ensures 1 <= |Groups(Decimal(nn))[0]| <= 3
  {
  }

  lemma NnStrOfSeven()
    ensures NnStr(7, " ") == "7"
  {
    NnStrBelowThousand(7, " ");
  }

  lemma DecimalOfThirteenMillion()
    ensures Decimal(13234567) == "13234567"
  {
    var d1 := Decimal(1);
    assert d1 == "1";
    var d2 := Decimal(13);
    assert d2 == d1 + "3";
    var d3 := Decimal(132);
    assert d3 == d2 + "2";
    var d4 := Decimal(1323);
    assert d4 == d3 + "3";
    var d5 := Decimal(13234);
    assert d5 == d4 + "4";
    var d6 := Decimal(132345);
    assert d6 == d5 + "5";
    var d7 := Decimal(1323456);
    assert d7 == d6 + "6";
    assert Decimal(13234567) == d7 + "7";
  }

  /** An eight-digit text splits into blocks of two, three and three digits. */
  lemma EightDigitGroups(ds: string)
    requires |ds| == 8
    ensures Groups(ds) == [ds[..2], ds[2..5], ds[5..]]
  {
    var head := ds[..5];
    assert ds[..|ds| - 3] == head && head[..|head| - 3] == ds[..2] && head[|head| - 3..] == ds[2..5];
    assert Groups(head) == [ds[..2]] + [ds[2..5]];
  }

  lemma JoinThree(a: string, b: string, c: string, sep: string)
    ensures Join([a, b, c], sep) == a + sep + b + sep + c
  {
    assert [a, b, c][1..] == [b, c] && [b, c][1..] == [c];
    assert Join([b, c], sep) == b + sep + c;
    assert Join([a, b, c], sep) == a + sep + (b + sep + c);
  }

  lemma NnStrOfThirteenMillion()
    ensures NnStr(13234567, " ") == "13 234 567"
  {
    DecimalOfThirteenMillion();
    var ds: string := "13234567";
    EightDigitGroups(ds);
    assert ds[..2] == "13" && ds[2..5] == "234" && ds[5..] == "567";
    JoinThree("13", "234", "567", " ");
  }

  /** Joining adds no character that neither a block nor the separator holds. */
  lemma {:induction false} JoinNoNewChars(gs: seq<string>, sep: string, c: char)
    requires forall i :: 0 <= i < |gs| ==> c !in gs[i]
    requires c !in sep
    ensures c !in Join(gs, sep)
  {
    if |gs| > 1 {
      JoinNoNewChars(gs[1..], sep, c);
    }
  }
}
