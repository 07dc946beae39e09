/**
 * The test helpers that turn short byte strings and text into node ids: an id is
 * exactly NODE_ID_SIZE bytes, the input is cut to that length or padded with 0x01
 * bytes, and text is first encoded as UTF-8, as a Go string conversion does.
 */
module StorjNodeIds {
  import opened Bytes

  /** The length of a node id, len(storj.NodeID{}). */
  const NODE_ID_SIZE: nat := 32

  type NodeId = s: seq<Byte> | |s| == NODE_ID_SIZE witness seq(32, _ => 0)

  /** The byte used to pad short inputs. */
  const PAD: Byte := 1

  /**
   * fit: the input cut to NODE_ID_SIZE bytes, or followed by as many 0x01 bytes
   * as it lacks.
   */
  function Fit(b: seq<Byte>): (r: NodeId)
    ensures |b| >= NODE_ID_SIZE ==> r == b[..NODE_ID_SIZE]
    ensures |b| < NODE_ID_SIZE ==> r == b + seq(NODE_ID_SIZE - |b|, _ => PAD)
    decreases NODE_ID_SIZE - |b|
  {
    if |b| < NODE_ID_SIZE then
      var r := Fit(b + [PAD]);
      assert r == b + seq(NODE_ID_SIZE - |b|, _ => PAD) by {
        if |b| + 1 < NODE_ID_SIZE {
          assert r == (b + [PAD]) + seq(NODE_ID_SIZE - |b| - 1, _ => PAD);
        } else {
          assert r == b + [PAD];
        }
      }
      r
    else
      b[..NODE_ID_SIZE]
  }

  /** Byte i of a fitted id: the input's byte i where there is one, the padding byte after it. */
  lemma FitBytes(b: seq<Byte>, i: nat)
    requires i < NODE_ID_SIZE
    ensures Fit(b)[i] == if i < |b| then b[i] else PAD
  {
  }

  /** Fitting an id that already has the full length gives it back. */
  lemma FitIdempotent(b: seq<Byte>)
    ensures Fit(Fit(b)) == Fit(b)
  {
  }

  /** NodeIDFromBytes: the id of the fitted bytes (fitting never leaves a wrong length). */
  function NodeIdFromBytes(b: seq<Byte>): (id: NodeId)
    ensures forall i :: 0 <= i < NODE_ID_SIZE ==> id[i] == if i < |b| then b[i] else PAD
  {
    var id := Fit(b);
    forall i | 0 <= i < NODE_ID_SIZE
      ensures id[i] == if i < |b| then b[i] else PAD
    {
      FitBytes(b, i);
    }
    id
  }

  /** The UTF-8 encoding of one character. */
  function Utf8(c: char): (r: seq<Byte>)
    ensures 1 <= |r| <= 4
    ensures |r| == 1 <==> c as int < 0x80
  {
    var v := c as int;
    if v < 0x80 then [v]
    else if v < 0x800 then [0xC0 + v / 0x40, 0x80 + v % 0x40]
    else if v < 0x1_0000 then [0xE0 + v / 0x1000, 0x80 + (v / 0x40) % 0x40, 0x80 + v % 0x40]
    else [0xF0 + v / 0x4_0000, 0x80 + (v / 0x1000) % 0x40, 0x80 + (v / 0x40) % 0x40, 0x80 + v % 0x40]
  }

  /** []byte(s): the UTF-8 encoding of a string. */
  function StringBytes(s: string): (r: seq<Byte>)
    ensures |r| >= |s|
  {
    if |s| == 0 then [] else Utf8(s[0]) + StringBytes(s[1..])
  }

  /** Text made of ASCII characters encodes to one byte per character, its code. */
  lemma {:induction false} StringBytesAscii(s: string)
    requires forall i :: 0 <= i < |s| ==> s[i] as int < 0x80
    ensures StringBytes(s) == seq(|s|, i requires 0 <= i < |s| => s[i] as int)
    decreases |s|
  {
    if |s| > 0 {
      StringBytesAscii(s[1..]);
    }
  }

  /** NodeIDFromString: the id of the string's UTF-8 bytes, fitted. */
  function NodeIdFromString(s: string): (id: NodeId)
    ensures forall i :: 0 <= i < NODE_ID_SIZE ==>
      id[i] == if i < |StringBytes(s)| then StringBytes(s)[i] else PAD
  {
    NodeIdFromBytes(StringBytes(s))
  }

  /** An id named by two ASCII characters holds their codes and then padding. */
  lemma NodeIdFromTwoChars(c0: char, c1: char)
    requires c0 as int < 0x80 && c1 as int < 0x80
    ensures var id := NodeIdFromString([c0, c1]);
      id[0] == c0 as int && id[1] == c1 as int && id[2..] == seq(NODE_ID_SIZE - 2, _ => PAD)
  {
    StringBytesAscii([c0, c1]);
    var id := NodeIdFromString([c0, c1]);
    assert id == Fit([c0 as int, c1 as int]);
  }

  /** NodeIDsFromBytes: one id per input, in order. */
  method NodeIdsFromBytes(bs: seq<seq<Byte>>) returns (ids: seq<NodeId>)
    ensures |ids| == |bs|
    ensures forall i :: 0 <= i < |bs| ==> ids[i] == NodeIdFromBytes(bs[i])
  {
    ids := [];
    for k := 0 to |bs|
      invariant |ids| == k
      invariant forall i :: 0 <= i < k ==> ids[i] == NodeIdFromBytes(bs[i])
    {
      ids := ids + [NodeIdFromBytes(bs[k])];
    }
  }

  /** NodeIDsFromStrings: one id per input string, in order. */
  method NodeIdsFromStrings(strs: seq<string>) returns (ids: seq<NodeId>)
    ensures |ids| == |strs|
    ensures forall i :: 0 <= i < |strs| ==> ids[i] == NodeIdFromString(strs[i])
  {
    ids := [];
    for k := 0 to |strs|
      invariant |ids| == k
      invariant forall i :: 0 <= i < k ==> ids[i] == NodeIdFromString(strs[i])
    {
      ids := ids + [NodeIdFromString(strs[k])];
    }
  }
}
