/**
 * The per-book error log (src/report.rs). The source renders each error
 * with its debug format; here the error values themselves are kept.
 */
module Reports {
  import opened Errors

  datatype BookReport = BookReport(nn: U32, errors: seq<Error>)

  /** `BookReport::new`: an empty log for book `nn`. */
  function New(nn: U32): (r: BookReport)
    ensures r.nn == nn && |r.errors| == 0
  {
    BookReport(nn, [])
  }

  /** `BookReport::add`: one more entry, at the end; earlier entries stay as they were. */
  function Add(r: BookReport, e: Error): (r': BookReport)
    ensures r'.nn == r.nn
    ensures |r'.errors| == |r.errors| + 1
    ensures r'.errors[..|r.errors|] == r.errors
    ensures r'.errors[|r.errors|] == e
  {
    r.(errors := r.errors + [e])
  }

  /** Logging several errors one after another. */
  function AddAll(r: BookReport, es: seq<Error>): BookReport
    decreases |es|
  {
    if |es| == 0 then r else AddAll(Add(r, es[0]), es[1..])
  }

  /** The log lists the errors in the order they were added, after what it held before. */
  lemma {:induction false} AddAllKeepsOrder(r: BookReport, es: seq<Error>)
    ensures AddAll(r, es).nn == r.nn
    ensures AddAll(r, es).errors == r.errors + es
    decreases |es|
  {
    if |es| > 0 {
      AddAllKeepsOrder(Add(r, es[0]), es[1..]);
      assert r.errors + [es[0]] + es[1..] == r.errors + es;
    }
  }
}
