/**
 * The string helpers of src/utils.rs. Each regular expression the source
 * uses is written out as a recursive function over the text:
 *   `&.*?;` and `<.*?>`  ->  DeleteFragments (lazy, leftmost first, `.` stops at '\n')
 *   `\D+`                ->  KeepDigits
 *   `\d\d`               ->  FirstDigitPair
 */
module Utils {
  import opened Wrappers
  import opened Errors
  import opened Digits
  import Poems
  import Seqs

  /** No `close` and no newline among the first `j` characters. */
  ghost predicate Clear(s: string, j: int, close: char)
    requires 0 <= j <= |s|
  {
    forall i :: 0 <= i < j ==> s[i] != close && s[i] != '\n'
  }

  /** Where a lazy `.*?close` match ends: the first `close`, unless a newline comes first. */
  function CloseIndex(s: string, close: char): (r: Option<nat>)
    requires close != '\n'
    ensures r.Some? ==> r.value < |s| && s[r.value] == close && Clear(s, r.value, close)
    ensures r.None? ==> forall j :: 0 <= j < |s| && s[j] == close ==> !Clear(s, j, close)
  {
    if |s| == 0 then None
    else if s[0] == close then Some(0)
    else if s[0] == '\n' then None
    else match CloseIndex(s[1..], close)
      case None => None
      case Some(k) => Some(k + 1)
  }

  /**
   * `Regex::new("<open>.*?<close>").replace_all(s, "")`: from left to right,
   * every `open` that is followed by a `close` on the same line is deleted
   * together with that nearest `close` and everything between them.
   */
  function DeleteFragments(s: string, open: char, close: char): (r: string)
    requires close != '\n'
    ensures |r| <= |s|
    ensures open !in s ==> r == s
    decreases |s|
  {
    if |s| == 0 then []
    else if s[0] == open then
      match CloseIndex(s[1..], close)
      case Some(k) => DeleteFragments(s[k + 2..], open, close)
      case None => [s[0]] + DeleteFragments(s[1..], open, close)
    else [s[0]] + DeleteFragments(s[1..], open, close)
  }

  /** A character other than `open` is kept. */
  lemma PlainHead(c: char, rest: string, open: char, close: char)
    requires close != '\n' && c != open
    ensures DeleteFragments([c] + rest, open, close) == [c] + DeleteFragments(rest, open, close)
  {
    assert ([c] + rest)[1..] == rest;
  }

  /** A prefix without any `open` is kept as it is. */
  lemma {:induction false} PlainPrefixKept(pre: string, post: string, open: char, close: char)
    requires close != '\n' && open !in pre
    ensures DeleteFragments(pre + post, open, close) == pre + DeleteFragments(post, open, close)
  {
    if |pre| > 0 {
      var c, tail := pre[0], pre[1..];
      Seqs.HeadTail(pre);
      Seqs.AppendAssoc([c], tail, post);
      assert open !in tail;
      PlainPrefixKept(tail, post, open, close);
      PlainHead(c, tail + post, open, close);
      Seqs.AppendAssoc([c], tail, DeleteFragments(post, open, close));
    } else {
      Seqs.AppendEmpty(pre, post);
      Seqs.AppendEmpty(pre, DeleteFragments(post, open, close));
    }
  }

  /** A fragment at the very start goes, up to and including the nearest `close`. */
  lemma FragmentHead(body: string, post: string, open: char, close: char)
    requires close != '\n' && close !in body && '\n' !in body
    ensures DeleteFragments([open] + body + [close] + post, open, close) == DeleteFragments(post, open, close)
  {
    var frag := [open] + body + [close] + post;
    var tail := body + [close] + post;
    assert frag[1..] == tail;
    assert tail[|body|] == close;
    assert Clear(tail, |body|, close) by {
      forall i | 0 <= i < |body| ensures tail[i] != close && tail[i] != '\n' {
        assert tail[i] == body[i];
      }
    }
    assert CloseIndex(tail, close) == Some(|body|);
    assert frag[|body| + 2..] == post;
  }

  /**
   * A complete fragment `open body close` after a plain prefix disappears
   * entirely, whatever its body holds.
   */
  lemma FragmentDeleted(pre: string, body: string, post: string, open: char, close: char)
    requires close != '\n' && open !in pre
    requires close !in body && '\n' !in body
    ensures DeleteFragments(pre + [open] + body + [close] + post, open, close)
         == pre + DeleteFragments(post, open, close)
  {
    var frag := [open] + body + [close] + post;
    assert pre + [open] + body + [close] + post == pre + frag;
    PlainPrefixKept(pre, frag, open, close);
    FragmentHead(body, post, open, close);
  }

  /**
   * An `open` with no `close` before the next newline matches nothing and is
   * kept; scanning resumes right after it.
   */
  lemma UnclosedKept(pre: string, post: string, open: char, close: char)
    requires close != '\n' && open !in pre
    requires CloseIndex(post, close).None?
    ensures DeleteFragments(pre + [open] + post, open, close)
         == pre + [open] + DeleteFragments(post, open, close)
  {
    var tail := [open] + post;
    Seqs.AppendAssoc(pre, [open], post);
    PlainPrefixKept(pre, tail, open, close);
    assert tail[1..] == post;
    Seqs.AppendAssoc(pre, [open], DeleteFragments(post, open, close));
  }

  /** `RE_SPEC.replace_all(s, "")`: deletes every `&...;` entity fragment. */
  function StripEntities(s: string): (r: string)
    ensures |r| <= |s|
    ensures '&' !in s ==> r == s
  {
    DeleteFragments(s, '&', ';')
  }

  /** `RE_NON_DIGIT.replace_all(s, "")`: only the digits remain, in their order. */
  function KeepDigits(s: string): (r: string)
    ensures AllDigits(r)
    ensures |r| <= |s|
  {
    if |s| == 0 then []
    else if IsDigit(s[0]) then [s[0]] + KeepDigits(s[1..])
    else KeepDigits(s[1..])
  }

  /** A string of digits is left unchanged. */
  lemma {:induction false} KeepDigitsOfDigits(s: string)
    requires AllDigits(s)
    ensures KeepDigits(s) == s
  {
    if |s| > 0 {
      KeepDigitsOfDigits(s[1..]);
    }
  }

  lemma {:induction false} KeepDigitsAppend(a: string, b: string)
    ensures KeepDigits(a + b) == KeepDigits(a) + KeepDigits(b)
  {
    if |a| > 0 {
      assert (a + b)[1..] == a[1..] + b;
      KeepDigitsAppend(a[1..], b);
    } else {
      assert a + b == b;
    }
  }

  /** `str::parse::<u32>` on a string of ASCII digits. */
  function ParseDigits(ds: string): (r: Result<U32, Error>)
    requires AllDigits(ds)
    ensures r.Ok? ==> r.value == Value(ds)
    ensures r.Ok? <==> |ds| > 0 && Value(ds) <= U32_MAX
    ensures r.Err? ==> r.error == Parse(if |ds| == 0 then Empty else PosOverflow)
  {
    if |ds| == 0 then Err(Parse(Empty))
    else if Value(ds) > U32_MAX then Err(Parse(PosOverflow))
    else Ok(Value(ds))
  }

  /** The digit string a poem-number marker leaves after both deletions. */
  function NumberText(s: string): (ds: string)
    ensures AllDigits(ds) && |ds| <= |s|
  {
    KeepDigits(StripEntities(s))
  }

  /**
   * `parse_poem_num_impl`: entity fragments go first, then every non-digit,
   * and the rest is read as a `u32`.
   */
  function ParsePoemNumImpl(s: string): (r: Result<U32, Error>)
    ensures r.Ok? <==> |NumberText(s)| > 0 && Value(NumberText(s)) <= U32_MAX
    ensures r.Ok? ==> r.value == Value(NumberText(s))
    ensures r == Err(Parse(Empty)) <==> |NumberText(s)| == 0
    ensures r == Err(Parse(PosOverflow)) <==> |NumberText(s)| > 0 && Value(NumberText(s)) > U32_MAX
  {
    ParseDigits(NumberText(s))
  }

  /** Digits inside an entity never count: the entity may hold anything. */
  lemma EntityIgnored(pre: string, body: string, post: string)
    requires '&' !in pre && ';' !in body && '\n' !in body
    ensures ParsePoemNumImpl(pre + "&" + body + ";" + post) == ParsePoemNumImpl(pre + post)
  {
    FragmentDeleted(pre, body, post, '&', ';');
    PlainPrefixKept(pre, post, '&', ';');
  }

  /** A non-digit between two texts leaves no trace in their digits. */
  lemma KeepDigitsSkips(a: string, c: char, b: string)
    requires !IsDigit(c)
    ensures KeepDigits(a + [c] + b) == KeepDigits(a + b)
  {
    KeepDigitsAppend(a + [c], b);
    KeepDigitsAppend(a, [c]);
    assert KeepDigits([c]) == [];
    KeepDigitsAppend(a, b);
  }

  /**
   * An '&' never closed by ';' on its line is an ordinary non-digit: the
   * digits on both sides of it count, so "1&2" reads as 12.
   */
  lemma UnclosedEntityIgnored(pre: string, post: string)
    requires '&' !in pre && CloseIndex(post, ';').None?
    ensures ParsePoemNumImpl(pre + ['&'] + post) == ParsePoemNumImpl(pre + post)
  {
    UnclosedKept(pre, post, '&', ';');
    PlainPrefixKept(pre, post, '&', ';');
    KeepDigitsSkips(pre, '&', StripEntities(post));
  }

  lemma {:induction false} KeepDigitsJoin(gs: seq<string>, sep: string)
    requires forall i :: 0 <= i < |gs| ==> AllDigits(gs[i])
    requires forall i :: 0 <= i < |sep| ==> !IsDigit(sep[i])
    ensures KeepDigits(Poems.Join(gs, sep)) == Poems.Concat(gs)
  {
    if |gs| == 1 {
      KeepDigitsOfDigits(gs[0]);
      assert Poems.Concat(gs) == gs[0] + Poems.Concat([]);
    } else if |gs| > 1 {
      KeepDigitsOfDigits(gs[0]);
      KeepDigitsJoin(gs[1..], sep);
      KeepDigitsAppend(gs[0] + sep, Poems.Join(gs[1..], sep));
      KeepDigitsAppend(gs[0], sep);
      KeepNoDigits(sep);
    }
  }

  lemma {:induction false} KeepNoDigits(s: string)
    requires forall i :: 0 <= i < |s| ==> !IsDigit(s[i])
    ensures KeepDigits(s) == []
  {
    if |s| > 0 {
      KeepNoDigits(s[1..]);
    }
  }

  /** Digit blocks joined by a complete entity lose every separator. */
  lemma {:induction false} StripEntitiesJoin(gs: seq<string>, body: string)
    requires forall i :: 0 <= i < |gs| ==> '&' !in gs[i]
    requires ';' !in body && '\n' !in body
    ensures StripEntities(Poems.Join(gs, "&" + body + ";")) == Poems.Concat(gs)
  {
    var sep := "&" + body + ";";
    if |gs| == 1 {
      assert Poems.Concat(gs) == gs[0] + Poems.Concat([]);
    } else if |gs| > 1 {
      StripEntitiesJoin(gs[1..], body);
      var rest := Poems.Join(gs[1..], sep);
      assert Poems.Join(gs, sep) == gs[0] + ['&'] + body + [';'] + rest;
      FragmentDeleted(gs[0], body, rest, '&', ';');
    }
  }

  lemma DigitBlocks(n: U32)
    ensures Poems.Concat(Poems.Groups(Decimal(n))) == Decimal(n)
    ensures forall i :: 0 <= i < |Poems.Groups(Decimal(n))| ==> AllDigits(Poems.Groups(Decimal(n))[i])
    ensures forall i :: 0 <= i < |Poems.Groups(Decimal(n))| ==> '&' !in Poems.Groups(Decimal(n))[i]
  {
    var gs := Poems.Groups(Decimal(n));
    Poems.GroupsOfDigits(Decimal(n));
    forall i | 0 <= i < |gs|
      ensures '&' !in gs[i]
    {
      assert AllDigits(gs[i]);
    }
  }

  /**
   * Reading back a grouped number: `nn_str(n, sep)` with a separator free of
   * digits and of '&' parses to `n`.
   */
  lemma ParsesGroupedNumber(n: U32, sep: string)
    requires '&' !in sep
    requires forall i :: 0 <= i < |sep| ==> !IsDigit(sep[i])
    ensures ParsePoemNumImpl(Poems.NnStr(n, sep)) == Ok(n)
  {
    var gs := Poems.Groups(Decimal(n));
    DigitBlocks(n);
    Poems.JoinNoNewChars(gs, sep, '&');
    KeepDigitsJoin(gs, sep);
    ValueOfDecimal(n);
  }

  /**
   * Reading back a number grouped with an entity, as in "1&#160;000":
   * `nn_str(n, "&" + body + ";")` parses to `n`.
   */
  lemma ParsesEntityGroupedNumber(n: U32, body: string)
    requires ';' !in body && '\n' !in body
    ensures ParsePoemNumImpl(Poems.NnStr(n, "&" + body + ";")) == Ok(n)
  {
    var gs := Poems.Groups(Decimal(n));
    DigitBlocks(n);
    StripEntitiesJoin(gs, body);
    KeepDigitsOfDigits(Decimal(n));
    ValueOfDecimal(n);
  }

  /** `re_remove_tags`: deletes every `<...>` tag; text without '<' is unchanged. */
  function RemoveTags(line: string): (r: string)
    ensures |r| <= |line|
    ensures '<' !in line ==> r == line
  {
    DeleteFragments(line, '<', '>')
  }

  /** A complete tag after tag-free text disappears, whatever it holds. */
  lemma TagDeleted(pre: string, body: string, post: string)
    requires '<' !in pre && '>' !in body && '\n' !in body
    ensures RemoveTags(pre + "<" + body + ">" + post) == pre + RemoveTags(post)
  {
    FragmentDeleted(pre, body, post, '<', '>');
  }

  /** Two ASCII digits start at `i`. */
  predicate DigitPairAt(s: string, i: int) {
    0 <= i && i + 1 < |s| && IsDigit(s[i]) && IsDigit(s[i + 1])
  }

  /** `RE_DD.find`: the leftmost place where two digits stand side by side. */
  function FirstDigitPair(s: string): (r: Option<nat>)
    ensures r.Some? ==> DigitPairAt(s, r.value) && forall i :: 0 <= i < r.value ==> !DigitPairAt(s, i)
    ensures r.None? ==> forall i :: 0 <= i < |s| ==> !DigitPairAt(s, i)
    decreases |s|
  {
    if |s| < 2 then None
    else if DigitPairAt(s, 0) then Some(0)
    else
      assert forall i :: 1 <= i < |s| ==> (DigitPairAt(s, i) <==> DigitPairAt(s[1..], i - 1));
      match FirstDigitPair(s[1..])
      case None => None
      case Some(i) => Some(i + 1)
  }

  /**
   * `parse_book_num`: the value of the leftmost two-digit run of a file name,
   * or `UnexpectedFilename` when there is none.
   */
  function ParseBookNum(name: string): (r: Result<U32, Error>)
    ensures r.Err? <==> forall i :: 0 <= i < |name| ==> !DigitPairAt(name, i)
    ensures r.Err? ==> r.error == UnexpectedFilename(name)
    ensures r.Ok? ==> r.value <= 99
    ensures r.Ok? ==> exists i :: DigitPairAt(name, i) && (forall j :: 0 <= j < i ==> !DigitPairAt(name, j))
                                  && r.value == 10 * DigitValue(name[i]) + DigitValue(name[i + 1])
  {
    match FirstDigitPair(name)
    case None => Err(UnexpectedFilename(name))
    case Some(i) =>
      var pair := name[i..i + 2];
      assert pair[..1] == [name[i]] && pair[1] == name[i + 1];
      assert Value([name[i]]) == DigitValue(name[i]) by {
        assert [name[i]][..0] == [];
      }
      Ok(Value(pair))
  }

  /** Digits followed by one more non-digit character read as the digits alone. */
  lemma DigitsThenNoise(x: string, d: char)
    requires AllDigits(x) && !IsDigit(d) && d != '&'
    ensures ParsePoemNumImpl(x + [d]) == ParseDigits(x)
  {
    assert '&' !in x + [d] by {
      forall i | 0 <= i < |x| ensures x[i] != '&' { assert IsDigit(x[i]); }
    }
    assert StripEntities(x + [d]) == x + [d];
    KeepDigitsAppend(x, [d]);
    KeepDigitsOfDigits(x);
    assert KeepDigits([d]) == [];
    assert NumberText(x + [d]) == x;
  }

  /** Two digit runs split by a separator and closed by a mark, as in "03,456.". */
  lemma SeparatedDigits(x: string, c: char, y: string, d: char)
    requires AllDigits(x) && AllDigits(y)
    requires !IsDigit(c) && c != '&' && !IsDigit(d) && d != '&'
    ensures ParsePoemNumImpl(x + [c] + y + [d]) == ParseDigits(x + y)
  {
    var s := x + [c] + y + [d];
    assert '&' !in s by {
      forall i | 0 <= i < |s| ensures s[i] != '&' {
        if i < |x| {
          assert IsDigit(x[i]);
        } else if |x| < i < |x| + 1 + |y| {
          assert s[i] == y[i - |x| - 1];
          assert IsDigit(y[i - |x| - 1]);
        }
      }
    }
    assert StripEntities(s) == s;
    assert s == x + ([c] + (y + [d]));
    KeepDigitsAppend(x, [c] + (y + [d]));
    KeepDigitsAppend([c], y + [d]);
    KeepDigitsAppend(y, [d]);
    KeepDigitsOfDigits(x);
    KeepDigitsOfDigits(y);
    assert KeepDigits([c]) == [] && KeepDigits([d]) == [];
    assert NumberText(s) == x + y;
  }

  /** Two digit runs split by an entity and closed by a mark, as in "01&#160;000.". */
  lemma EntitySeparatedDigits(x: string, body: string, y: string, d: char)
    requires AllDigits(x) && AllDigits(y) && ';' !in body && '\n' !in body
    requires !IsDigit(d) && d != '&'
    ensures ParsePoemNumImpl(x + "&" + body + ";" + y + [d]) == ParseDigits(x + y)
  {
    assert '&' !in x by {
      forall i | 0 <= i < |x| ensures x[i] != '&' { assert IsDigit(x[i]); }
    }
    EntityIgnored(x, body, y + [d]);
    assert x + "&" + body + ";" + y + [d] == x + "&" + body + ";" + (y + [d]);
    assert x + (y + [d]) == (x + y) + [d];
    DigitsThenNoise(x + y, d);
  }

  /** The value of a five-digit string, digit by digit. */
  lemma FiveDigitValue(t: string)
    requires |t| == 5 && AllDigits(t)
    ensures Value(t) == 10000 * DigitValue(t[0]) + 1000 * DigitValue(t[1]) + 100 * DigitValue(t[2])
                        + 10 * DigitValue(t[3]) + DigitValue(t[4])
  {
    assert t[..0] == [];
    ValueStep(t, 1, 0);
    ValueStep(t, 2, DigitValue(t[0]));
    ValueStep(t, 3, 10 * DigitValue(t[0]) + DigitValue(t[1]));
    ValueStep(t, 4, 100 * DigitValue(t[0]) + 10 * DigitValue(t[1]) + DigitValue(t[2]));
    ValueStep(t, 5, 1000 * DigitValue(t[0]) + 100 * DigitValue(t[1]) + 10 * DigitValue(t[2]) + DigitValue(t[3]));
    assert t[..5] == t;
  }

  /** "03,456.", spelled out character by character, parses to 3456. */
  lemma CommaMarker(s: string)
    requires |s| == 7 && s[0] == '0' && s[1] == '3' && s[2] == ',' && s[3] == '4'
    requires s[4] == '5' && s[5] == '6' && s[6] == '.'
    ensures ParsePoemNumImpl(s) == Ok(3456)
  {
    SeparatedDigits(s[..2], s[2], s[3..6], s[6]);
    assert s[..2] + [s[2]] + s[3..6] + [s[6]] == s;
    var t := s[..2] + s[3..6];
    assert t[0] == '0' && t[1] == '3' && t[2] == '4' && t[3] == '5' && t[4] == '6';
    FiveDigitValue(t);
  }

  /** "01&#160;000.", spelled out character by character, parses to 1000. */
  lemma EntityMarker(s: string)
    requires |s| == 12 && s[0] == '0' && s[1] == '1' && s[2] == '&' && s[3] == '#'
    requires s[4] == '1' && s[5] == '6' && s[6] == '0' && s[7] == ';'
    requires s[8] == '0' && s[9] == '0' && s[10] == '0' && s[11] == '.'
    ensures ParsePoemNumImpl(s) == Ok(1000)
  {
    var body := s[3..7];
    assert ';' !in body && '\n' !in body by {
      assert body == [s[3], s[4], s[5], s[6]];
    }
    EntitySeparatedDigits(s[..2], body, s[8..11], s[11]);
    assert s[..2] + "&" + body + ";" + s[8..11] + [s[11]] == s;
    var t := s[..2] + s[8..11];
    assert t[0] == '0' && t[1] == '1' && t[2] == '0' && t[3] == '0' && t[4] == '0';
    FiveDigitValue(t);
  }

  lemma ParsePoemNumWithComma()
    ensures ParsePoemNumImpl("03,456.") == Ok(3456)
  {
    CommaMarker("03,456.");
  }

  lemma ParsePoemNumWithEntity()
    ensures ParsePoemNumImpl("01&#160;000.") == Ok(1000)
  {
    EntityMarker("01&#160;000.");
  }

  /**
   * "Vol.07.html", spelled out character by character, names book 7: the
   * first two-digit run starts at index 4.
   */
  lemma BookFileName(name: string)
    requires |name| == 11 && name[0] == 'V' && name[1] == 'o' && name[2] == 'l' && name[3] == '.'
    requires name[4] == '0' && name[5] == '7' && name[6] == '.' && name[7] == 'h'
    requires name[8] == 't' && name[9] == 'm' && name[10] == 'l'
    ensures ParseBookNum(name) == Ok(7)
  {
    assert DigitPairAt(name, 4);
    var r := ParseBookNum(name);
    var i :| DigitPairAt(name, i) && (forall j :: 0 <= j < i ==> !DigitPairAt(name, j))
             && r.value == 10 * DigitValue(name[i]) + DigitValue(name[i + 1]);
    assert i == 4;
  }

  lemma ParseBookNumExample()
    ensures ParseBookNum("Vol.07.html") == Ok(7)
  {
    BookFileName("Vol.07.html");
  }
}
