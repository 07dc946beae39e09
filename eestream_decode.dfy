/**
 * Erasure-decode bookkeeping: checking the piece rangers before decoding, the
 * size of the decoded range, and the decoded reader's output buffer, its sticky
 * end-of-stream flag and the closing of its piece readers.  The erasure code
 * itself is a parameter: the scheme's counts and block sizes are numbers, and
 * its Decode is a function handed to Read.
 */
module EestreamDecode {
  import opened Wrappers
  import opened Bytes

  /** The parameters of an erasure scheme the bookkeeping consults. */
  datatype ErasureScheme = ErasureScheme(requiredCount: int, encodedBlockSize: int, decodedBlockSize: int)

  /** A range source: a byte slice, or the decoded combination of piece rangers of equal size. */
  datatype Ranger =
    | ByteRanger(data: seq<Byte>)
    | DecodedRanger(es: ErasureScheme, pieceSizes: map<int, nat>, inSize: nat)

  datatype DecodeError = SizesDiffer | NotBlockMultiple | NotEnoughReaders

  /** The text of each Decode error. */
  function DecodeMessage(e: DecodeError): string {
    match e
    case SizesDiffer => "decode failure: range reader sizes don't all match"
    case NotBlockMultiple => "invalid erasure decoder and range reader combo. range reader size must be a multiple of erasure encoder block size"
    case NotEnoughReaders => "not enough readers to reconstruct data!"
  }

  /** All piece rangers have the size of piece i. */
  predicate AllSized(rrs: map<int, nat>, size: nat) {
    forall j :: j in rrs ==> rrs[j] == size
  }

  /** order lists every key of m exactly once: the order a range over the map visits them. */
  predicate KeyOrder<V>(m: map<int, V>, order: seq<int>) {
    (forall k :: 0 <= k < |order| ==> order[k] in m) &&
    (forall i :: i in m ==> i in order) &&
    (forall a, b :: 0 <= a < b < |order| ==> order[a] != order[b])
  }

  /**
   * Decode: walk the piece rangers (in the map's iteration order) checking that
   * their sizes agree; no pieces give an empty byte ranger; then the common size
   * must be a multiple of the encoded block size and there must be at least
   * RequiredCount pieces.
   */
  method Decode(rrs: map<int, nat>, order: seq<int>, es: ErasureScheme) returns (r: Result<Ranger, DecodeError>)
    requires KeyOrder(rrs, order)
    requires es.encodedBlockSize > 0
    ensures r == Err(SizesDiffer) <==> exists i, j :: i in rrs && j in rrs && rrs[i] != rrs[j]
    ensures |rrs| == 0 ==> r == Ok(ByteRanger([]))
    ensures forall i :: i in rrs && AllSized(rrs, rrs[i]) ==>
      r == if rrs[i] % es.encodedBlockSize != 0 then Err(NotBlockMultiple)
           else if |rrs| < es.requiredCount then Err(NotEnoughReaders)
           else Ok(DecodedRanger(es, rrs, rrs[i]))
  {
    var size := -1;
    for k := 0 to |order|
      invariant size == -1 <==> k == 0
      invariant k > 0 ==> size == rrs[order[0]]
      invariant forall j :: 0 <= j < k ==> rrs[order[j]] == size
    {
      if size == -1 {
        size := rrs[order[k]];
      } else if size != rrs[order[k]] {
        r := Err(SizesDiffer);
        return;
      }
    }
    if size == -1 {
      assert |order| == 0;
      assert forall i :: i in rrs ==> i in order;
      return Ok(ByteRanger([]));
    }
    assert AllSized(rrs, size) by {
      forall i | i in rrs
        ensures rrs[i] == size
      {
        var j :| 0 <= j < |order| && order[j] == i;
      }
    }
    if size % es.encodedBlockSize != 0 {
      return Err(NotBlockMultiple);
    }
    if |rrs| < es.requiredCount {
      return Err(NotEnoughReaders);
    }
    return Ok(DecodedRanger(es, rrs, size));
  }

  /** Size: a byte ranger's length; a decoded ranger's whole blocks times the decoded block size. */
  function Size(r: Ranger): int
    requires r.DecodedRanger? ==> r.es.encodedBlockSize > 0
  {
    match r
    case ByteRanger(data) => |data|
    case DecodedRanger(es, _, inSize) => (inSize / es.encodedBlockSize) * es.decodedBlockSize
  }

  /**
   * A decoded ranger whose piece size is a whole number of encoded blocks
   * decodes to the same number of decoded blocks: its size scales the piece size
   * by decodedBlockSize / encodedBlockSize exactly, and a larger piece size never
   * gives a smaller range.
   */
  lemma SizeScales(es: ErasureScheme, rrs: map<int, nat>, inSize: nat)
    requires es.encodedBlockSize > 0 && es.decodedBlockSize >= 0 && inSize % es.encodedBlockSize == 0
    ensures Size(DecodedRanger(es, rrs, inSize)) * es.encodedBlockSize == inSize * es.decodedBlockSize
    ensures Size(DecodedRanger(es, rrs, inSize)) >= 0
  {
    var blocks := inSize / es.encodedBlockSize;
    assert inSize == blocks * es.encodedBlockSize;
    calc {
      Size(DecodedRanger(es, rrs, inSize)) * es.encodedBlockSize;
      (blocks * es.decodedBlockSize) * es.encodedBlockSize;
      { MulRotate(blocks, es.decodedBlockSize, es.encodedBlockSize); }
      (blocks * es.encodedBlockSize) * es.decodedBlockSize;
      inSize * es.decodedBlockSize;
    }
  }

  lemma MulRotate(a: int, b: int, c: int)
    ensures (a * b) * c == (a * c) * b
  {
  }

  /** What one piece reader's ReadFull gave: a full buffer, end of stream, or another error. */
  datatype PieceOutcome = Full(data: seq<Byte>) | Eof | Failed(message: string)

  /** The errors a Read reports. */
  datatype ReadError = EndOfStream | DecodeFailed(message: string)

  /** The scheme's Decode: new output buffer (assigned even on error) and an error, if any. */
  type Decoder = (seq<Byte>, map<int, seq<Byte>>) -> (seq<Byte>, Option<string>)

  /** The buffers handed to the decoder: those of the pieces that were read in full. */
  function Survivors(outcomes: map<int, PieceOutcome>): (m: map<int, seq<Byte>>)
    ensures forall i :: i in m <==> i in outcomes && outcomes[i].Full?
    ensures forall i :: i in m ==> m[i] == outcomes[i].data
  {
    SurvivorsAmong(outcomes, outcomes.Keys)
  }

  /** The buffers of the pieces among done that were read in full. */
  function SurvivorsAmong(outcomes: map<int, PieceOutcome>, done: set<int>): map<int, seq<Byte>> {
    map i | i in outcomes && i in done && outcomes[i].Full? :: outcomes[i].data
  }

  /** Taking one more piece into account adds its buffer exactly when it was read in full. */
  lemma SurvivorsAmongAdd(outcomes: map<int, PieceOutcome>, done: set<int>, i: int)
    requires i in outcomes
    ensures SurvivorsAmong(outcomes, done + {i}) ==
      if outcomes[i].Full? then SurvivorsAmong(outcomes, done)[i := outcomes[i].data] else SurvivorsAmong(outcomes, done)
  {
  }

  /** Some piece reached the end of its stream. */
  predicate AnyEof(outcomes: map<int, PieceOutcome>) {
    exists i :: i in outcomes && outcomes[i].Eof?
  }

  /**
   * Collect the piece results (in the map's iteration order): a full read keeps
   * its buffer, a read error other than EOF drops the piece, and the first EOF
   * ends the collection.
   */
  method Gather(outcomes: map<int, PieceOutcome>, order: seq<int>) returns (r: Result<map<int, seq<Byte>>, ReadError>)
    requires KeyOrder(outcomes, order)
    ensures r.Err? <==> AnyEof(outcomes)
    ensures r.Err? ==> r.error == EndOfStream
    ensures r.Ok? ==> r.value == Survivors(outcomes)
  {
    var inbufs: map<int, seq<Byte>> := map[];
    ghost var done: set<int> := {};
    for k := 0 to |order|
      invariant forall j :: 0 <= j < k ==> !outcomes[order[j]].Eof?
      invariant done == set j | 0 <= j < k :: order[j]
      invariant inbufs == SurvivorsAmong(outcomes, done)
    {
      assert (set j | 0 <= j < k + 1 :: order[j]) == done + {order[k]};
      SurvivorsAmongAdd(outcomes, done, order[k]);
      done := done + {order[k]};
      match outcomes[order[k]] {
        case Full(data) =>
          inbufs := inbufs[order[k] := data];
        case Eof =>
          assert order[k] in outcomes && outcomes[order[k]].Eof?;
          r := Err(EndOfStream);
          return;
        case Failed(_) =>
      }
    }
    assert (set j | 0 <= j < |order| :: order[j]) == outcomes.Keys by {
      forall i | i in outcomes
        ensures i in (set j | 0 <= j < |order| :: order[j])
      {
        var j :| 0 <= j < |order| && order[j] == i;
      }
    }
    assert !AnyEof(outcomes) by {
      forall i | i in outcomes
        ensures !outcomes[i].Eof?
      {
        var j :| 0 <= j < |order| && order[j] == i;
      }
    }
    return Ok(inbufs);
  }

  /** A piece stream that can be closed, possibly with an error. */
  class PieceReader {
    var closed: bool
    const closeErr: Option<string>

    constructor (closeErr: Option<string>)
      ensures !closed && this.closeErr == closeErr
    {
      closed := false;
      this.closeErr := closeErr;
    }

    method Close() returns (err: Option<string>)
      modifies this
      ensures closed && err == closeErr
    {
      closed := true;
      err := closeErr;
    }
  }

  /** The first error of a sequence of close results, if any. */
  function FirstError(errs: seq<Option<string>>): Option<string> {
    if |errs| == 0 then None
    else if errs[0].Some? then errs[0]
    else FirstError(errs[1..])
  }

  /**
   * The first error is absent exactly when every close succeeded, and
   * otherwise is the error of a close preceded only by successful ones.
   */
  lemma {:induction false} FirstErrorIsFirst(errs: seq<Option<string>>)
    ensures FirstError(errs).None? <==> forall k :: 0 <= k < |errs| ==> errs[k].None?
    ensures FirstError(errs).Some? ==> exists k :: 0 <= k < |errs| && errs[k] == FirstError(errs) &&
                                                 forall j :: 0 <= j < k ==> errs[j].None?
    decreases |errs|
  {
    if |errs| > 0 && errs[0].None? {
      var r := FirstError(errs[1..]);
      FirstErrorIsFirst(errs[1..]);
      assert r.None? <==> forall k :: 0 <= k < |errs| ==> errs[k].None? by {
        if r.None? {
          forall k | 0 <= k < |errs| ensures errs[k].None? {
            if k > 0 { assert errs[k] == errs[1..][k - 1]; }
          }
        } else {
          var k :| 0 <= k < |errs[1..]| && errs[1..][k] == r;
          assert errs[k + 1] == r;
        }
      }
      if r.Some? {
        var k :| 0 <= k < |errs[1..]| && errs[1..][k] == r && forall j :: 0 <= j < k ==> errs[1..][j].None?;
        assert errs[k + 1] == r && forall j :: 0 <= j < k + 1 ==> errs[j].None?;
      }
    }
  }

  class DecodedReader {
    var rs: map<int, PieceReader>
    const es: ErasureScheme
    var outbuf: seq<Byte>
    var err: Option<ReadError>

    /** DecodeReaders: a reader over the given piece readers with an empty output buffer. */
    constructor (rs: map<int, PieceReader>, es: ErasureScheme)
      ensures this.rs == rs && this.es == es && outbuf == [] && err == None
    {
      this.rs := rs;
      this.es := es;
      outbuf := [];
      err := None;
    }

    /**
     * Copy the front of the output buffer into p and keep the rest, in order,
     * at the front of a correspondingly shorter buffer.
     */
    method Drain(p: array<Byte>) returns (n: int)
      modifies this, p
      ensures n == if p.Length < old(|outbuf|) then p.Length else old(|outbuf|)
      ensures p[..n] == old(outbuf)[..n] && p[n..] == old(p[n..])
      ensures outbuf == old(outbuf)[n..]
      ensures rs == old(rs) && err == old(err)
    {
      var buf := outbuf;
      n := if p.Length < |buf| then p.Length else |buf|;
      for k := 0 to n
        modifies p
        invariant p[..k] == buf[..k] && p[k..] == old(p[k..])
      {
        p[k] := buf[k];
        assert p[..k + 1] == p[..k] + [buf[k]];
      }
      outbuf := buf[n..];
    }

    /**
     * Read, as written: with an empty buffer, refill it from the pieces (the first
     * EOF is remembered and reported; pieces with other errors are left out of
     * decoding) and then drain it into p.  Once the EOF is remembered, a Read on
     * an empty buffer returns no bytes and no error, because it returns its own
     * still-nil error result rather than the remembered one.
     */
    method Read(p: array<Byte>, outcomes: map<int, PieceOutcome>, order: seq<int>, decode: Decoder) returns (n: int, rerr: Option<ReadError>)
      requires KeyOrder(outcomes, order)
      modifies this, p
      ensures rs == old(rs)
      ensures old(|outbuf|) > 0 ==>
        rerr == None && err == old(err) &&
        n == (if p.Length < old(|outbuf|) then p.Length else old(|outbuf|)) &&
        p[..n] == old(outbuf)[..n] && outbuf == old(outbuf)[n..]
      ensures old(|outbuf|) == 0 && old(err).Some? ==>
        n == 0 && rerr == None && err == old(err) && outbuf == [] && p[..] == old(p[..])
      ensures old(|outbuf|) == 0 && old(err).None? ==> Refilled(old(p[..]), p[..], outcomes, decode, n, rerr)
    {
      if |outbuf| == 0 {
        if err.Some? {
          return 0, None;
        }
        rerr := Refill(outcomes, order, decode);
        if rerr.Some? {
          return 0, rerr;
        }
      }
      n := Drain(p);
      rerr := None;
    }

    /** Read with the remembered error returned, as an io.Reader must keep reporting EOF. */
    method ReadCorrected(p: array<Byte>, outcomes: map<int, PieceOutcome>, order: seq<int>, decode: Decoder) returns (n: int, rerr: Option<ReadError>)
      requires KeyOrder(outcomes, order)
      modifies this, p
      ensures rs == old(rs)
      ensures old(|outbuf|) > 0 ==>
        rerr == None && err == old(err) &&
        n == (if p.Length < old(|outbuf|) then p.Length else old(|outbuf|)) &&
        p[..n] == old(outbuf)[..n] && outbuf == old(outbuf)[n..]
      ensures old(|outbuf|) == 0 && old(err).Some? ==>
        n == 0 && rerr == old(err) && err == old(err) && outbuf == [] && p[..] == old(p[..])
      ensures old(|outbuf|) == 0 && old(err).None? ==> Refilled(old(p[..]), p[..], outcomes, decode, n, rerr)
    {
      if |outbuf| == 0 {
        if err.Some? {
          return 0, err;
        }
        rerr := Refill(outcomes, order, decode);
        if rerr.Some? {
          return 0, rerr;
        }
      }
      n := Drain(p);
      rerr := None;
    }

    /**
     * The outcome of a Read that refilled an empty buffer: an EOF is remembered
     * and reported with no bytes; otherwise the decoder runs on the full pieces,
     * its buffer becomes the output buffer, and either its error is reported with
     * no bytes or the buffer is drained into p.
     */
    ghost predicate Refilled(p0: seq<Byte>, p1: seq<Byte>, outcomes: map<int, PieceOutcome>, decode: Decoder,
                             n: int, rerr: Option<ReadError>)
      reads this
    {
      if AnyEof(outcomes) then
        n == 0 && rerr == Some(EndOfStream) && err == Some(EndOfStream) && outbuf == [] && p1 == p0
      else
        var (out, e) := decode([], Survivors(outcomes));
        err == None &&
        if e.Some? then
          n == 0 && rerr == Some(DecodeFailed(e.value)) && outbuf == out && p1 == p0
        else
          rerr == None && n == (if |p0| < |out| then |p0| else |out|) &&
          |p1| == |p0| && p1[..n] == out[..n] && p1[n..] == p0[n..] && outbuf == out[n..]
    }

    /** Refill an empty buffer from the pieces' outcomes through the decoder. */
    method Refill(outcomes: map<int, PieceOutcome>, order: seq<int>, decode: Decoder) returns (rerr: Option<ReadError>)
      requires KeyOrder(outcomes, order)
      requires outbuf == [] && err == None
      modifies this
      ensures rs == old(rs)
      ensures AnyEof(outcomes) ==> rerr == Some(EndOfStream) && err == rerr && outbuf == []
      ensures !AnyEof(outcomes) ==>
        var (out, e) := decode([], Survivors(outcomes));
        err == None && outbuf == out && rerr == (if e.Some? then Some(DecodeFailed(e.value)) else None)
    {
      var gathered := Gather(outcomes, order);
      if gathered.Err? {
        err := Some(gathered.error);
        return Some(gathered.error);
      }
      var e;
      outbuf, e := decode(outbuf, gathered.value).0, decode(outbuf, gathered.value).1;
      if e.Some? {
        return Some(DecodeFailed(e.value));
      }
      rerr := None;
    }

    /**
     * Close: close every piece reader, in the order given (the map's iteration
     * order), and return the first close error.
     */
    method Close(order: seq<int>) returns (firstErr: Option<string>)
      requires KeyOrder(rs, order)
      modifies rs.Values
      ensures forall i :: i in rs ==> rs[i].closed
      ensures firstErr == FirstError(CloseErrors(rs, order))
    {
      firstErr := None;
      var readers := rs;
      for k := 0 to |order|
        invariant firstErr == FirstError(CloseErrors(readers, order[..k]))
        invariant forall j :: 0 <= j < k ==> readers[order[j]].closed
      {
        var r := readers[order[k]];
        label before:
        var e := r.Close();
        forall j | 0 <= j < k + 1
          ensures readers[order[j]].closed
        {
          if j < k && readers[order[j]] != r {
            assert old@before(readers[order[j]].closed);
          }
        }
        CloseStep(readers, order, k, e);
        if e.Some? && firstErr.None? {
          firstErr := e;
        }
      }
      assert order[..|order|] == order;
      forall i | i in rs
        ensures rs[i].closed
      {
        var j :| 0 <= j < |order| && order[j] == i;
      }
    }
  }

  /** The close errors of the readers, in the given order of their keys. */
  function CloseErrors(rs: map<int, PieceReader>, order: seq<int>): (errs: seq<Option<string>>)
    requires forall k :: 0 <= k < |order| ==> order[k] in rs
    ensures |errs| == |order| && forall k :: 0 <= k < |order| ==> errs[k] == rs[order[k]].closeErr
  {
    seq(|order|, k requires 0 <= k < |order| => rs[order[k]].closeErr)
  }

  /** Closing the reader of one more key: the first error so far, or else that reader's error. */
  lemma CloseStep(rs: map<int, PieceReader>, order: seq<int>, k: nat, e: Option<string>)
    requires k < |order| && (forall j :: 0 <= j < |order| ==> order[j] in rs) && e == rs[order[k]].closeErr
    ensures var before := FirstError(CloseErrors(rs, order[..k]));
      FirstError(CloseErrors(rs, order[..k + 1])) == if before.Some? then before else e
  {
    assert CloseErrors(rs, order[..k + 1]) == CloseErrors(rs, order[..k]) + [e];
    FirstErrorSnoc(CloseErrors(rs, order[..k]), e);
  }

  /** The first error after one more close result. */
  lemma {:induction false} FirstErrorSnoc(errs: seq<Option<string>>, e: Option<string>)
    ensures FirstError(errs + [e]) == if FirstError(errs).Some? then FirstError(errs) else e
    decreases |errs|
  {
    if |errs| > 0 {
      assert (errs + [e])[1..] == errs[1..] + [e];
      FirstErrorSnoc(errs[1..], e);
    }
  }

  /**
   * A reader over one piece that is already at its end: the first Read reports
   * EOF; the second, as written, returns no bytes and no error, so a caller
   * looping until EOF would never stop.
   */
  method StickyEofAsWritten() returns (first: Option<ReadError>, second: Option<ReadError>, n: int)
    ensures first == Some(EndOfStream)
    ensures second == None && n == 0
  {
    var piece := new PieceReader(None);
    var dr := new DecodedReader(map[0 := piece], ErasureScheme(1, 1, 1));
    var p := new Byte[4];
    var decode: Decoder := (out, bufs) => (out, None);
    var outcomes: map<int, PieceOutcome> := map[0 := Eof];
    assert outcomes[0].Eof?;
    var _, e1 := dr.Read(p, outcomes, [0], decode);
    n, second := dr.Read(p, outcomes, [0], decode);
    first := e1;
  }

  /** The same two reads with the remembered error returned: both report EOF. */
  method StickyEofCorrected() returns (first: Option<ReadError>, second: Option<ReadError>, n: int)
    ensures first == Some(EndOfStream)
    ensures second == Some(EndOfStream) && n == 0
  {
    var piece := new PieceReader(None);
    var dr := new DecodedReader(map[0 := piece], ErasureScheme(1, 1, 1));
    var p := new Byte[4];
    var decode: Decoder := (out, bufs) => (out, None);
    var outcomes: map<int, PieceOutcome> := map[0 := Eof];
    assert outcomes[0].Eof?;
    var _, e1 := dr.ReadCorrected(p, outcomes, [0], decode);
    n, second := dr.ReadCorrected(p, outcomes, [0], decode);
    first := e1;
  }
}
