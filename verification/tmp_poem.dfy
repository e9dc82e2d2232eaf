/** The draft of one poem section (src/tmp_poem.rs): a number and the lines read so far. */
module TmpPoems {
  import opened Errors

  datatype TmpPoem = TmpPoem(nn: U32, lines: seq<string>)

  /** `TmpPoem::new`: a draft with no lines yet. */
  function New(nn: U32): (t: TmpPoem)
    ensures t.nn == nn && |t.lines| == 0
  {
    TmpPoem(nn, [])
  }

  /** `TmpPoem::add`: the line goes after every line already held. */
  function Add(t: TmpPoem, line: string): (r: TmpPoem)
    ensures r.nn == t.nn
    ensures |r.lines| == |t.lines| + 1
    ensures r.lines[..|t.lines|] == t.lines
    ensures r.lines[|t.lines|] == line
  {
    t.(lines := t.lines + [line])
  }

  /** Adding several lines one after another. */
  function AddAll(t: TmpPoem, lines: seq<string>): TmpPoem
    decreases |lines|
  {
    if |lines| == 0 then t else AddAll(Add(t, lines[0]), lines[1..])
  }

  /** Successive `add` calls keep the lines in the order they were given. */
  lemma {:induction false} AddAllKeepsOrder(t: TmpPoem, lines: seq<string>)
    ensures AddAll(t, lines).nn == t.nn
    ensures AddAll(t, lines).lines == t.lines + lines
    decreases |lines|
  {
    if |lines| > 0 {
      AddAllKeepsOrder(Add(t, lines[0]), lines[1..]);
      assert t.lines + [lines[0]] + lines[1..] == t.lines + lines;
    }
  }
}
