/** The eibd wire protocol: length-prefixed messages, the telegrams inside them and the
    APDU inside a telegram. Bit fields are written with division and remainder. */
module KnxdProtocol {
  import opened Basics

  type Bytes = seq<Byte>
  type Word16 = x: int | 0 <= x < 0x1_0000

  // The numbers knxd's eibtypes.h gives to these message types.
  const APDU_PACKET: Word16 := 0x25
  const GROUP_PACKET: Word16 := 0x27

  function Word(hi: Byte, lo: Byte): Word16 {
    hi * 256 + lo
  }

  /** The length field of a message. */
  function PayloadLength(raw: Bytes): Word16
    requires |raw| >= 2
  {
    Word(raw[0], raw[1])
  }

  /** A message whose length field counts exactly the bytes behind it. */
  predicate Framed(raw: Bytes) {
    |raw| >= 2 && |raw| == 2 + PayloadLength(raw)
  }

  function BuildMessage(kind: Word16, data: Bytes): Bytes {
    var size := 2 + |data|;
    [size / 256 % 256, size % 256, kind / 256, kind % 256] + data
  }

  function BuildGroupPacket(addr: Address, apdu: Bytes): Bytes {
    BuildMessage(GROUP_PACKET, [addr / 256, addr % 256] + apdu)
  }

  datatype Message = Message(kind: Word16, data: Bytes)

  /** The source needs a payload of at least the type word once four bytes are there. */
  function ParseMessage(raw: Bytes): Option<Message>
    requires |raw| >= 4 ==> PayloadLength(raw) >= 2
  {
    if |raw| < 4 then None
    else if |raw| < PayloadLength(raw) + 2 then None
    else Some(Message(Word(raw[2], raw[3]), raw[4..2 + PayloadLength(raw)]))
  }

  /** A built message is framed, and is parsed back to what it was built from, exactly when
      its payload fits the 16-bit length field. */
  lemma MessageRoundTripExactlyWhen(kind: Word16, data: Bytes)
    ensures Framed(BuildMessage(kind, data)) <==> |data| <= 0xfffd
    ensures |data| <= 0xfffd ==> ParseMessage(BuildMessage(kind, data)) == Some(Message(kind, data))
  {
    var size, raw := 2 + |data|, BuildMessage(kind, data);
    assert Word(kind / 256, kind % 256) == kind;
    if size < 0x1_0000 {
      assert Word(size / 256 % 256, size % 256) == size;
      assert raw[4..2 + size] == data;
    }
  }

  // ---- Telegrams ----

  datatype Telegram = Telegram(addr: Address, apdu: Bytes)

  /** The telegram in a message; other and short messages carry none. */
  function TelegramIn(msg: Bytes): Option<Telegram>
    requires Framed(msg)
  {
    if |msg| < 4 then None else
    match ParseMessage(msg)
    case None => None
    case Some(Message(kind, data)) =>
      if (kind == APDU_PACKET || kind == GROUP_PACKET) && |data| >= 6 then
        Some(Telegram(Word(data[2], data[3]), data[4..]))
      else None
  }

  /** How knxd delivers a telegram from the bus. */
  function ApduPacket(source: Word16, addr: Address, apdu: Bytes): Bytes {
    BuildMessage(APDU_PACKET, [source / 256, source % 256, addr / 256, addr % 256] + apdu)
  }

  /** Which messages carry a telegram: those of the two packet types with source, destination
      and at least two bytes of APDU, and no others. */
  lemma TelegramInExactlyWhen(kind: Word16, data: Bytes)
    requires |data| <= 0xfffd
    ensures Framed(BuildMessage(kind, data))
    ensures TelegramIn(BuildMessage(kind, data)) ==
            if kind in {0x25, 0x27} && |data| >= 6 then Some(Telegram(Word(data[2], data[3]), data[4..])) else None
  {
    MessageRoundTripExactlyWhen(kind, data);
    hide Framed;
  }

  /** The bytes of a switch-on for 1/2/3 as they go to knxd, and as they come from it. */
  lemma KnownPackets()
    ensures BuildGroupPacket(0x0a03, [0, 0x81]) == [0, 6, 0, 0x27, 0x0a, 0x03, 0, 0x81]
    ensures Framed([0, 8, 0, 0x25, 0x11, 0x01, 0x0a, 0x03, 0, 0x81])
    ensures TelegramIn([0, 8, 0, 0x25, 0x11, 0x01, 0x0a, 0x03, 0, 0x81]) == Some(Telegram(0x0a03, [0, 0x81]))
  {
    var m: Bytes := [0, 8, 0, 0x25, 0x11, 0x01, 0x0a, 0x03, 0, 0x81];
    assert m[4..10] == [0x11, 0x01, 0x0a, 0x03, 0, 0x81] && m[4..10][4..] == [0, 0x81];
  }

  /** A delivered telegram arrives with its address and APDU, whoever sent it. */
  lemma TelegramRoundTrip(source: Word16, addr: Address, apdu: Bytes)
    requires 2 <= |apdu| <= 0xfff9
    ensures Framed(ApduPacket(source, addr, apdu))
    ensures TelegramIn(ApduPacket(source, addr, apdu)) == Some(Telegram(addr, apdu))
  {
    var data := [source / 256, source % 256, addr / 256, addr % 256] + apdu;
    MessageRoundTripExactlyWhen(APDU_PACKET, data);
    assert data[4..] == apdu;
  }

  // ---- APDUs ----

  const READ := 0x00
  const RESPONSE := 0x40
  const WRITE := 0x80

  /** The application control bits and the value. A two-byte APDU packs a six-bit value into
      the control byte; otherwise the value follows it. Control bits 11 carry no value. */
  function ParseApdu(apdu: Bytes): Option<(int, Bytes)> {
    if |apdu| < 2 then None else
    var kind := apdu[1] / 64 * 64;
    if kind == RESPONSE || kind == WRITE then
      Some((kind, if |apdu| == 2 then [apdu[1] % 64] else apdu[2..]))
    else
      Some((kind, []))
  }

  /** The value a telegram puts into the cache, unless it is a read request. */
  function CacheValue(apdu: Bytes): Option<Bytes> {
    match ParseApdu(apdu)
    case None => None
    case Some((kind, value)) => if kind == READ then None else Some(value)
  }

  /** What every APDU does to the cache, by its control byte: a read request nothing; a
      response or a write stores the bytes behind it or, when there are none, its low six
      bits; anything else stores an empty value. */
  lemma CacheValueIs(first: Byte, control: Byte, value: Bytes)
    ensures CacheValue([first, control] + value) ==
            if control < 0x40 then None
            else if control >= 0xc0 then Some([])
            else Some(if value == [] then [control % 64] else value)
  {
    var apdu := [first, control] + value;
    assert apdu[2..] == value;
  }

  /** An APDU without a control byte does nothing. */
  lemma ShortApduIsIgnored(apdu: Bytes)
    requires |apdu| < 2
    ensures CacheValue(apdu) == None
  {}

  /** A written value is cached as it was sent exactly when its control byte is not of the
      form 11xxxxxx. */
  lemma WrittenValueIsCachedExactlyWhen(control: Byte, value: Bytes)
    requires control >= 0x80 && value != []
    ensures CacheValue([0, control] + value) == Some(value) <==> control < 0xc0
  {
    var apdu := [0, control] + value;
    assert apdu[2..] == value;
  }
}
