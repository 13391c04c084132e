/** hash_file_sha256 of src/treehash.c: the digest of a file read in pieces of any size. */
module FileDigest {
  import opened Bytes
  import opened Sha256Stream

  /** What one call of read gives; no bytes at all is the end of the file. */
  datatype ReadResult = Got(data: bytes) | Interrupted | Failed

  /** The calls of read that matter: all up to the end of the file or a failure. */
  predicate Finishes(calls: seq<ReadResult>) {
    calls != [] && (calls[0] == Failed || calls[0] == Got([]) || Finishes(calls[1..]))
  }

  predicate Fails(calls: seq<ReadResult>) {
    calls != [] && (calls[0] == Failed || (calls[0] != Got([]) && Fails(calls[1..])))
  }

  /** The bytes read before the end of the file. */
  function Content(calls: seq<ReadResult>): bytes {
    if calls == [] || calls[0] == Got([]) || calls[0] == Failed then []
    else (if calls[0].Got? then calls[0].data else []) + Content(calls[1..])
  }

  /** What call i does to the rest of the calls, with got read before it. */
  lemma OneCall(calls: seq<ReadResult>, i: nat, got: bytes)
    requires i < |calls| && Finishes(calls[i..])
    ensures calls[i] == Failed ==> Fails(calls[i..])
    ensures calls[i] == Got([]) ==> !Fails(calls[i..]) && got + Content(calls[i..]) == got
    ensures calls[i] != Failed && calls[i] != Got([]) ==>
      Finishes(calls[i + 1..]) && Fails(calls[i + 1..]) == Fails(calls[i..])
    ensures calls[i] == Interrupted ==> Content(calls[i + 1..]) == Content(calls[i..])
    ensures calls[i].Got? && calls[i].data != [] ==>
      got + calls[i].data + Content(calls[i + 1..]) == got + Content(calls[i..])
  {
    assert calls[i..][1..] == calls[i + 1..];
  }

  /**
   * The digest depends on the content of the file only, not on how read cuts it into pieces or how often a
   * signal interrupts it.
   */
  method HashFile(calls: seq<ReadResult>, openOk: bool, closeOk: bool) returns (ok: bool, hex: bytes)
    requires Finishes(calls)
    ensures ok <==> openOk && !Fails(calls) && closeOk
    ensures ok ==> hex == Hex(Sha256(Content(calls)))
  {
    hide Sha256, Hex;
    assert calls[0..] == calls;
    ok, hex := false, [];
    if !openOk {
      return;
    }
    var context := new Context();
    var i := 0;
    while true
      invariant i < |calls| && Finishes(calls[i..]) && Fails(calls[i..]) == Fails(calls)
      invariant context.Valid() && fresh(context) && fresh(context.state) && fresh(context.buffer)
      invariant context.absorbed + Content(calls[i..]) == Content(calls)
      decreases |calls| - i
    {
      OneCall(calls, i, context.absorbed);
      hide Finishes, Fails, Content;
      var r := calls[i];
      i := i + 1;
      if r == Interrupted {
        continue;
      }
      if r == Failed {
        return;
      }
      if r.data == [] {
        break;
      }
      context.Update(r.data);
    }
    if !closeOk {
      return;
    }
    assert context.absorbed == Content(calls);
    var hash := context.Final();
    ok, hex := true, Hex(hash);
  }

  /** A call that brings bytes, or none because a signal came in. */
  predicate GoesOn(call: ReadResult) {
    call == Interrupted || (call.Got? && call.data != [])
  }

  /** The bytes of the first n calls. */
  function Brought(calls: seq<ReadResult>, n: nat): bytes
    requires n <= |calls|
  {
    if n == 0 then [] else Brought(calls, n - 1) + if calls[n - 1].Got? then calls[n - 1].data else []
  }

  lemma {:induction false} BroughtLater(calls: seq<ReadResult>, n: nat)
    requires 0 < n <= |calls|
    ensures Brought(calls, n) == (if calls[0].Got? then calls[0].data else []) + Brought(calls[1..], n - 1)
  {
    if n > 1 {
      BroughtLater(calls, n - 1);
    }
  }

  /** The calls up to the first that ends or fails decide; those before it bring the content. */
  lemma {:induction false} FirstEndDecides(calls: seq<ReadResult>, n: nat)
    requires n < |calls| && (forall i :: 0 <= i < n ==> GoesOn(calls[i]))
    requires calls[n] == Failed || calls[n] == Got([])
    ensures Finishes(calls) && (Fails(calls) <==> calls[n] == Failed) && Content(calls) == Brought(calls, n)
    decreases n
  {
    if n > 0 {
      assert GoesOn(calls[0]);
      FirstEndDecides(calls[1..], n - 1);
      BroughtLater(calls, n);
      hide Brought;
    }
  }
}
