/**
 * The bytes a signature is computed over: for order limits, orders and piece
 * hashes, a separate signing message holding the fields to sign, with unset
 * optional fields left out; for vouchers and stream IDs, the message itself
 * marshalled with its satellite signature cleared.  Protocol-buffer
 * marshalling is a function given to each encoder.
 */
module SigningEncode {
  import opened Wrappers
  import opened Bytes
  import opened StorjNodeIds

  /** The nanoseconds within a second, as Go keeps them. */
  type Nanos = n: int | 0 <= n < 1_000_000_000

  /** An instant counted from Go's zero time; the zero time is the unset value. */
  datatype Time = Time(seconds: int, nanos: Nanos)

  predicate TimeIsZero(t: Time) {
    t.seconds == 0 && t.nanos == 0
  }

  /** The all-zero node ID is the unset value. */
  predicate IdIsZero(id: NodeId) {
    forall i :: 0 <= i < |id| ==> id[i] == 0
  }

  /** An uplink's piece public key; no key is the unset value. */
  type PublicKey = seq<Byte>

  predicate KeyIsZero(k: PublicKey) {
    |k| == 0
  }

  datatype OrderLimit = OrderLimit(
    serialNumber: seq<Byte>,
    satelliteId: NodeId,
    deprecatedUplinkId: Option<NodeId>,
    uplinkPublicKey: PublicKey,
    storageNodeId: NodeId,
    pieceId: seq<Byte>,
    limit: int,
    action: int,
    pieceExpiration: Time,
    orderExpiration: Time,
    orderCreation: Time,
    satelliteSignature: seq<Byte>,
    satelliteAddress: Option<string>)

  /** The fields of an order limit that are signed; an absent optional field is not encoded. */
  datatype OrderLimitSigning = OrderLimitSigning(
    serialNumber: seq<Byte>,
    satelliteId: NodeId,
    deprecatedUplinkId: Option<NodeId>,
    uplinkPublicKey: Option<PublicKey>,
    storageNodeId: NodeId,
    pieceId: seq<Byte>,
    limit: int,
    action: int,
    pieceExpiration: Option<Time>,
    orderExpiration: Option<Time>,
    orderCreation: Option<Time>,
    satelliteAddress: Option<string>)

  datatype Order = Order(serialNumber: seq<Byte>, amount: int, uplinkSignature: seq<Byte>)

  datatype OrderSigning = OrderSigning(serialNumber: seq<Byte>, amount: int)

  datatype PieceHash = PieceHash(pieceId: seq<Byte>, hash: seq<Byte>, pieceSize: int, timestamp: Time, signature: seq<Byte>)

  datatype PieceHashSigning = PieceHashSigning(pieceId: seq<Byte>, hash: seq<Byte>, pieceSize: int, timestamp: Option<Time>)

  type Marshal<!T> = T -> Result<seq<Byte>, string>

  /** Distinct messages marshal to distinct bytes. */
  ghost predicate Injective<T(!new)>(marshal: Marshal<T>) {
    forall a: T, b: T :: marshal(a) == marshal(b) ==> a == b
  }

  function TimeField(t: Time): Option<Time> {
    if TimeIsZero(t) then None else Some(t)
  }

  /** The deprecated uplink ID as signed: absent when unset or zero. */
  function UplinkIdField(id: Option<NodeId>): Option<NodeId> {
    if id.Some? && !IdIsZero(id.value) then id else None
  }

  function OrderLimitSigningOf(limit: OrderLimit): OrderLimitSigning {
    OrderLimitSigning(
      limit.serialNumber,
      limit.satelliteId,
      UplinkIdField(limit.deprecatedUplinkId),
      if KeyIsZero(limit.uplinkPublicKey) then None else Some(limit.uplinkPublicKey),
      limit.storageNodeId,
      limit.pieceId,
      limit.limit,
      limit.action,
      TimeField(limit.pieceExpiration),
      TimeField(limit.orderExpiration),
      TimeField(limit.orderCreation),
      limit.satelliteAddress)
  }

  function EncodeOrderLimit(limit: OrderLimit, marshal: Marshal<OrderLimitSigning>): Result<seq<Byte>, string> {
    marshal(OrderLimitSigningOf(limit))
  }

  /**
   * Two order limits agree on everything their signature covers: every field
   * but the signature, where an absent and a zero deprecated uplink ID are
   * the same.
   */
  predicate SameSignedLimit(a: OrderLimit, b: OrderLimit) {
    a.serialNumber == b.serialNumber && a.satelliteId == b.satelliteId &&
    UplinkIdField(a.deprecatedUplinkId) == UplinkIdField(b.deprecatedUplinkId) &&
    a.uplinkPublicKey == b.uplinkPublicKey && a.storageNodeId == b.storageNodeId &&
    a.pieceId == b.pieceId && a.limit == b.limit && a.action == b.action &&
    a.pieceExpiration == b.pieceExpiration && a.orderExpiration == b.orderExpiration &&
    a.orderCreation == b.orderCreation && a.satelliteAddress == b.satelliteAddress
  }

  /** Unset fields are absent from the signed form; set ones are there as they are. */
  lemma OrderLimitOptionalFields(limit: OrderLimit)
    ensures var s := OrderLimitSigningOf(limit);
      (s.uplinkPublicKey.Some? <==> !KeyIsZero(limit.uplinkPublicKey)) &&
      (s.pieceExpiration.Some? <==> !TimeIsZero(limit.pieceExpiration)) &&
      (s.orderExpiration.Some? <==> !TimeIsZero(limit.orderExpiration)) &&
      (s.orderCreation.Some? <==> !TimeIsZero(limit.orderCreation)) &&
      (s.deprecatedUplinkId.Some? <==> limit.deprecatedUplinkId.Some? && !IdIsZero(limit.deprecatedUplinkId.value)) &&
      (s.uplinkPublicKey.Some? ==> s.uplinkPublicKey.value == limit.uplinkPublicKey) &&
      (s.pieceExpiration.Some? ==> s.pieceExpiration.value == limit.pieceExpiration) &&
      (s.orderExpiration.Some? ==> s.orderExpiration.value == limit.orderExpiration) &&
      (s.orderCreation.Some? ==> s.orderCreation.value == limit.orderCreation) &&
      (s.deprecatedUplinkId.Some? ==> s.deprecatedUplinkId == limit.deprecatedUplinkId)
  {
  }

  /** Leaving out a zero time loses nothing: the zero time is the only one left out. */
  lemma {:induction false} TimeFieldDetermines(a: Time, b: Time)
    ensures TimeField(a) == TimeField(b) <==> a == b
  {
  }

  /** The signed form of an order limit determines exactly the fields its signature covers. */
  lemma OrderLimitSigningCovers(a: OrderLimit, b: OrderLimit)
    ensures OrderLimitSigningOf(a) == OrderLimitSigningOf(b) <==> SameSignedLimit(a, b)
  {
    TimeFieldDetermines(a.pieceExpiration, b.pieceExpiration);
    TimeFieldDetermines(a.orderExpiration, b.orderExpiration);
    TimeFieldDetermines(a.orderCreation, b.orderCreation);
  }

  /**
   * The encoding of an order limit ignores its signature; with an injective
   * marshalling, equal encodings mean the signed fields agree.
   */
  lemma EncodeOrderLimitCovers(a: OrderLimit, b: OrderLimit, marshal: Marshal<OrderLimitSigning>)
    ensures SameSignedLimit(a, b) ==> EncodeOrderLimit(a, marshal) == EncodeOrderLimit(b, marshal)
    ensures Injective(marshal) && EncodeOrderLimit(a, marshal) == EncodeOrderLimit(b, marshal) ==> SameSignedLimit(a, b)
    ensures EncodeOrderLimit(a.(satelliteSignature := b.satelliteSignature), marshal) == EncodeOrderLimit(a, marshal)
  {
    OrderLimitSigningCovers(a, b);
    OrderLimitSigningCovers(a.(satelliteSignature := b.satelliteSignature), a);
  }

  function EncodeOrder(order: Order, marshal: Marshal<OrderSigning>): Result<seq<Byte>, string> {
    marshal(OrderSigning(order.serialNumber, order.amount))
  }

  /** An order's encoding depends on its serial number and amount, and on nothing else. */
  lemma EncodeOrderCovers(a: Order, b: Order, marshal: Marshal<OrderSigning>)
    ensures a.serialNumber == b.serialNumber && a.amount == b.amount ==> EncodeOrder(a, marshal) == EncodeOrder(b, marshal)
    ensures Injective(marshal) && EncodeOrder(a, marshal) == EncodeOrder(b, marshal) ==>
      a.serialNumber == b.serialNumber && a.amount == b.amount
  {
  }

  function PieceHashSigningOf(hash: PieceHash): PieceHashSigning {
    PieceHashSigning(hash.pieceId, hash.hash, hash.pieceSize, TimeField(hash.timestamp))
  }

  function EncodePieceHash(hash: PieceHash, marshal: Marshal<PieceHashSigning>): Result<seq<Byte>, string> {
    marshal(PieceHashSigningOf(hash))
  }

  /**
   * A piece hash's encoding covers its piece ID, hash, size and (when set)
   * timestamp, and never its signature.
   */
  lemma EncodePieceHashCovers(a: PieceHash, b: PieceHash, marshal: Marshal<PieceHashSigning>)
    ensures PieceHashSigningOf(a).timestamp.Some? <==> !TimeIsZero(a.timestamp)
    ensures a.pieceId == b.pieceId && a.hash == b.hash && a.pieceSize == b.pieceSize && a.timestamp == b.timestamp ==>
      EncodePieceHash(a, marshal) == EncodePieceHash(b, marshal)
    ensures Injective(marshal) && EncodePieceHash(a, marshal) == EncodePieceHash(b, marshal) ==>
      a.pieceId == b.pieceId && a.hash == b.hash && a.pieceSize == b.pieceSize && a.timestamp == b.timestamp
  {
    TimeFieldDetermines(a.timestamp, b.timestamp);
  }

  /** A voucher or stream ID as marshalled: its other fields and the satellite's signature. */
  datatype SignedMessage<B> = SignedMessage(body: B, satelliteSignature: seq<Byte>)

  /** A voucher or stream ID held by pointer, whose signature field the encoder overwrites. */
  class SatelliteSigned<B> {
    var body: B
    var satelliteSignature: seq<Byte>

    constructor(body: B, satelliteSignature: seq<Byte>)
      ensures this.body == body && this.satelliteSignature == satelliteSignature
    {
      this.body := body;
      this.satelliteSignature := satelliteSignature;
    }

    function Message(): SignedMessage<B>
      reads this
    {
      SignedMessage(body, satelliteSignature)
    }
  }

  /** The message with its signature cleared. */
  function Unsigned<B>(m: SignedMessage<B>): (u: SignedMessage<B>)
    ensures u.body == m.body && u.satelliteSignature == []
  {
    m.(satelliteSignature := [])
  }

  /**
   * EncodeVoucher and EncodeStreamID: the message is marshalled with its
   * signature cleared, and the signature is put back afterwards.
   */
  method EncodeSatelliteSigned<B>(msg: SatelliteSigned<B>, marshal: Marshal<SignedMessage<B>>)
    returns (out: Result<seq<Byte>, string>)
    modifies msg
    ensures msg.Message() == old(msg.Message())
    ensures out == marshal(Unsigned(old(msg.Message())))
  {
    var signature := msg.satelliteSignature;
    msg.satelliteSignature := [];
    out := marshal(msg.Message());
    msg.satelliteSignature := signature;
  }

  /** Two messages that differ only in their signature encode alike. */
  lemma UnsignedIgnoresSignature<B>(m: SignedMessage<B>, sig: seq<Byte>)
    ensures Unsigned(m.(satelliteSignature := sig)) == Unsigned(m)
  {
  }

  /** Encoding a message twice gives the same bytes and leaves the message as it was. */
  method EncodeTwice<B>(msg: SatelliteSigned<B>, marshal: Marshal<SignedMessage<B>>)
    returns (first: Result<seq<Byte>, string>, second: Result<seq<Byte>, string>)
    modifies msg
    ensures first == second && msg.Message() == old(msg.Message())
  {
    first := EncodeSatelliteSigned(msg, marshal);
    second := EncodeSatelliteSigned(msg, marshal);
  }
}
