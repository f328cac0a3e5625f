/**
 * The byte layout of lab 3's price feed (lab3/fxp_bytes_subscriber.py):
 * unsigned big-endian integers, the serialized (host, port) address a
 * subscriber sends to the publisher, and the split of a datagram into
 * 32-byte quote records.
 *
 * Bytes are integers in [0, 256).  The float price is not modelled: a
 * record keeps its 8 raw bytes.  The currency codes stay bytes too; of their
 * decoding only whether it succeeds (the bytes are UTF-8) is modelled.
 */
module FxpBytes {
  import opened Wrappers

  type Byte = b: int | 0 <= b < 256

  /** The exceptions the byte routines raise. */
  datatype ByteError = OverflowError | AttributeError | UnicodeDecodeError

  /** `RECORD_LENGTH` */
  const RecordLength: nat := 32

  /** 256^k: how many values k bytes can hold. */
  function Pow256(k: nat): (p: nat)
    ensures p >= 1
  {
    if k == 0 then 1 else 256 * Pow256(k - 1)
  }

  /** `int.from_bytes(bs, 'big')`: the first byte is the most significant. */
  function FromBigEndian(bs: seq<Byte>): (n: nat)
    ensures n < Pow256(|bs|)
  {
    if |bs| == 0 then 0
    else
      var hi := FromBigEndian(bs[..|bs| - 1]);
      assert hi * 256 + bs[|bs| - 1] < Pow256(|bs|) by {
        assert hi * 256 <= (Pow256(|bs| - 1) - 1) * 256;
      }
      hi * 256 + bs[|bs| - 1]
  }

  /** The len low-order bytes of n, most significant first. */
  function Encode(n: nat, len: nat): (bs: seq<Byte>)
    ensures |bs| == len
  {
    if len == 0 then [] else Encode(n / 256, len - 1) + [n % 256]
  }

  /** Encoding a value that fits and reading it back gives the value. */
  lemma {:induction false} DecodeEncode(n: nat, len: nat)
    requires n < Pow256(len)
    ensures FromBigEndian(Encode(n, len)) == n
  {
    if len > 0 {
      var e := Encode(n / 256, len - 1);
      assert n / 256 < Pow256(len - 1);
      DecodeEncode(n / 256, len - 1);
      var bs := e + [n % 256];
      assert bs[..|bs| - 1] == e;
    }
  }

  /** Reading bytes and encoding the value at the same width gives the bytes. */
  lemma {:induction false} EncodeDecode(bs: seq<Byte>)
    ensures Encode(FromBigEndian(bs), |bs|) == bs
  {
    if |bs| > 0 {
      var init := bs[..|bs| - 1];
      var last := bs[|bs| - 1];
      var hi := FromBigEndian(init);
      var n := hi * 256 + last;
      assert n / 256 == hi && n % 256 == last;
      EncodeDecode(init);
      assert bs == init + [last];
    }
  }

  /**
   * `n.to_bytes(len, byteorder="big")`: OverflowError for a negative n or one
   * that does not fit in len bytes.
   */
  function ToBytes(n: int, len: nat): (r: Result<seq<Byte>, ByteError>)
    ensures r.Ok? <==> 0 <= n < Pow256(len)
    ensures r.Ok? ==> |r.value| == len && FromBigEndian(r.value) == n
    ensures r.Err? ==> r.error == OverflowError
  {
    if 0 <= n < Pow256(len) then
      DecodeEncode(n, len);
      Ok(Encode(n, len))
    else Err(OverflowError)
  }

  /** Every byte string is what to_bytes makes of its own value at its own width. */
  lemma ToBytesFromBigEndian(bs: seq<Byte>)
    ensures ToBytes(FromBigEndian(bs), |bs|) == Ok(bs)
  {
    EncodeDecode(bs);
  }

  /** `ipaddress.ip_address(host)`: its `.packed` octets are 4 bytes for IPv4, 16 for IPv6. */
  datatype IpAddress = IPv4(octets: seq<Byte>) | IPv6(octets: seq<Byte>)
  {
    predicate Valid()
    {
      if IPv4? then |octets| == 4 else |octets| == 16
    }
  }

  /**
   * `serialize_address((host, port))`: the packed host followed by the port
   * in two big-endian bytes; a port outside [0, 65536) raises OverflowError.
   */
  function SerializeAddress(host: IpAddress, port: int): (r: Result<seq<Byte>, ByteError>)
    requires host.Valid()
    ensures r.Ok? <==> 0 <= port < 65536
    ensures r.Err? ==> r.error == OverflowError
    ensures r.Ok? ==> |r.value| == (if host.IPv4? then 6 else 18)
    ensures r.Ok? ==> r.value[..|r.value| - 2] == host.octets
    ensures r.Ok? ==> FromBigEndian(r.value[|r.value| - 2..]) == port
  {
    match ToBytes(port, 2)
    case Ok(p) =>
      var r := host.octets + p;
      assert r[..|r| - 2] == host.octets && r[|r| - 2..] == p;
      Ok(r)
    case Err(e) => Err(e)
  }

  /** The receiving side's reading of a serialized address: the host octets, then the port. */
  function DeserializeAddress(bs: seq<Byte>): Option<(IpAddress, int)>
  {
    if |bs| == 6 then Some((IPv4(bs[..4]), FromBigEndian(bs[4..])))
    else if |bs| == 18 then Some((IPv6(bs[..16]), FromBigEndian(bs[16..])))
    else None
  }

  /** Reading a serialized address gives back the host and the port. */
  lemma AddressRoundTrip(host: IpAddress, port: int)
    requires host.Valid() && 0 <= port < 65536
    ensures DeserializeAddress(SerializeAddress(host, port).value) == Some((host, port))
  {
    var r := SerializeAddress(host, port).value;
    if host.IPv4? {
      assert r[..4] == host.octets && r[4..] == r[|r| - 2..];
    } else {
      assert r[..16] == host.octets && r[16..] == r[|r| - 2..];
    }
  }

  /** Every 6- or 18-byte address is the serialization of what it reads as. */
  lemma AddressBytesRoundTrip(bs: seq<Byte>)
    requires |bs| == 6 || |bs| == 18
    ensures DeserializeAddress(bs).Some?
    ensures var a := DeserializeAddress(bs).value; a.0.Valid() && SerializeAddress(a.0, a.1) == Ok(bs)
  {
    var k := |bs| - 2;
    ToBytesFromBigEndian(bs[k..]);
    assert bs[..k] + bs[k..] == bs;
  }

  // ---------------------------------------------------------------------
  // Timestamps
  // ---------------------------------------------------------------------

  /** `MICROS_PER_SECOND` */
  const MicrosPerSecond: nat := 1000000
  const MicrosPerDay: nat := 86400 * MicrosPerSecond

  /**
   * Days from 1970-01-01 to 10000-01-01, the first day a `datetime` cannot
   * hold: adding this many days or more to the epoch raises OverflowError.
   */
  const EpochDaysLimit: nat := 2932897

  /**
   * `deserialize_utcdatetime` as written, as microseconds since the epoch:
   * the microsecond count is divided down to seconds, but `timedelta(seconds)`
   * takes its first argument as days, so the count is read as that many
   * days' worth of seconds, and overflows the `datetime` range as soon as it
   * reaches EpochDaysLimit seconds.
   */
  function DeserializeUtcDatetime(time: seq<Byte>): (r: Result<nat, ByteError>)
    ensures r.Ok? <==> FromBigEndian(time) < EpochDaysLimit * MicrosPerSecond
    ensures r.Ok? ==> r.value < EpochDaysLimit * MicrosPerDay
    ensures r.Err? ==> r.error == OverflowError
  {
    var duration := FromBigEndian(time);
    if duration < EpochDaysLimit * MicrosPerSecond then Ok(duration * 86400) else Err(OverflowError)
  }

  /**
   * `deserialize_utcdatetime` with `timedelta(seconds=seconds)`: the time is
   * the microsecond count itself, and overflows only past the year 9999.
   */
  function DeserializeUtcDatetimeFixed(time: seq<Byte>): (r: Result<nat, ByteError>)
    ensures r.Ok? <==> FromBigEndian(time) < EpochDaysLimit * MicrosPerDay
    ensures r.Err? ==> r.error == OverflowError
    ensures r.Ok? ==> r.value == FromBigEndian(time)
  {
    var duration := FromBigEndian(time);
    if duration < EpochDaysLimit * MicrosPerDay then Ok(duration) else Err(OverflowError)
  }

  /** The corrected reading gives back every time the 8-byte field can carry before the year 10000. */
  lemma TimestampRoundTrip(t: nat)
    requires t < EpochDaysLimit * MicrosPerDay
    ensures DeserializeUtcDatetimeFixed(Encode(t, 8)) == Ok(t)
  {
    assert EpochDaysLimit * MicrosPerDay < Pow256(8);
    DecodeEncode(t, 8);
  }

  /** Where both readings succeed, the one as written is 86400 times too far from the epoch. */
  lemma SecondsReadAsDays(time: seq<Byte>)
    requires DeserializeUtcDatetime(time).Ok?
    ensures DeserializeUtcDatetimeFixed(time).Ok?
    ensures DeserializeUtcDatetime(time).value == 86400 * DeserializeUtcDatetimeFixed(time).value
  {
  }

  /**
   * One second after the epoch reads as one day after it, and a time from
   * the year 2020 (1.6 * 10^15 microseconds) raises OverflowError, while the
   * corrected reading gives both back.
   */
  lemma OneSecondIsOneDay()
    ensures DeserializeUtcDatetime(Encode(MicrosPerSecond, 8)) == Ok(MicrosPerDay)
    ensures DeserializeUtcDatetimeFixed(Encode(MicrosPerSecond, 8)) == Ok(MicrosPerSecond)
    ensures DeserializeUtcDatetime(Encode(1600000000000000, 8)) == Err(OverflowError)
    ensures DeserializeUtcDatetimeFixed(Encode(1600000000000000, 8)) == Ok(1600000000000000)
  {
    TimestampRoundTrip(MicrosPerSecond);
    TimestampRoundTrip(1600000000000000);
  }

  // ---------------------------------------------------------------------
  // Text
  // ---------------------------------------------------------------------

  function InRange(b: Byte, lo: int, hi: int): bool
  {
    lo <= b <= hi
  }

  /** `bs.decode('utf-8')` succeeds: bs is a sequence of well-formed UTF-8 characters (RFC 3629, section 4). */
  predicate Utf8(bs: seq<Byte>)
    decreases |bs|
  {
    if bs == [] then true
    else if bs[0] < 0x80 then Utf8(bs[1..])
    else if InRange(bs[0], 0xC2, 0xDF) then
      |bs| >= 2 && InRange(bs[1], 0x80, 0xBF) && Utf8(bs[2..])
    else if InRange(bs[0], 0xE0, 0xEF) then
      && |bs| >= 3
      && InRange(bs[1], if bs[0] == 0xE0 then 0xA0 else 0x80, if bs[0] == 0xED then 0x9F else 0xBF)
      && InRange(bs[2], 0x80, 0xBF)
      && Utf8(bs[3..])
    else if InRange(bs[0], 0xF0, 0xF4) then
      && |bs| >= 4
      && InRange(bs[1], if bs[0] == 0xF0 then 0x90 else 0x80, if bs[0] == 0xF4 then 0x8F else 0xBF)
      && InRange(bs[2], 0x80, 0xBF) && InRange(bs[3], 0x80, 0xBF)
      && Utf8(bs[4..])
    else false
  }

  /** ASCII text decodes. */
  lemma {:induction false} AsciiUtf8(bs: seq<Byte>)
    requires forall i :: 0 <= i < |bs| ==> bs[i] < 0x80
    ensures Utf8(bs)
  {
    if bs != [] {
      AsciiUtf8(bs[1..]);
    }
  }

  /** The euro sign's three bytes decode; a lone continuation byte and an encoded surrogate do not. */
  lemma Utf8Examples()
    ensures Utf8([0xE2, 0x82, 0xAC])
    ensures !Utf8([0x80]) && !Utf8([0xED, 0xA0, 0x80])
  {
    var euro: seq<Byte> := [0xE2, 0x82, 0xAC];
    assert euro[3..] == [];
  }

  // ---------------------------------------------------------------------
  // Records
  // ---------------------------------------------------------------------

  /**
   * One record as unmarshal_message reads it: the timestamp in microseconds
   * since the epoch, the two currency fields and the eight price bytes.
   */
  datatype Quote = Quote(timestamp: nat, currency1: seq<Byte>, currency2: seq<Byte>, price: seq<Byte>)

  /** The fields of one record at their fixed offsets; bytes 22-32 are not read. */
  function ParseRecord(rec: seq<Byte>): Quote
    requires |rec| == RecordLength
  {
    Quote(FromBigEndian(rec[0..8]), rec[8..11], rec[11..14], rec[14..22])
  }

  /**
   * The exception reading one record raises with the corrected calls, in
   * the order line 134-135 evaluates them: the timestamp, then the first
   * and the second currency's decoding.
   */
  function RecordFault(rec: seq<Byte>): (f: Option<ByteError>)
    requires |rec| == RecordLength
    ensures f.None? <==> Readable(ParseRecord(rec))
  {
    if DeserializeUtcDatetimeFixed(rec[0..8]).Err? then Some(OverflowError)
    else if !Utf8(rec[8..11]) || !Utf8(rec[11..14]) then Some(UnicodeDecodeError)
    else None
  }

  /** A quote the corrected reading accepts: before the year 10000, both codes UTF-8. */
  predicate Readable(q: Quote)
  {
    q.timestamp < EpochDaysLimit * MicrosPerDay && Utf8(q.currency1) && Utf8(q.currency2)
  }

  /**
   * The exception reading one record raises as written: the timestamp read
   * in days, then the first currency's decoding, and in any case the `.deco`
   * of the second.
   */
  function RecordFaultAsWritten(rec: seq<Byte>): (e: ByteError)
    requires |rec| == RecordLength
    ensures e == OverflowError <==> FromBigEndian(rec[0..8]) >= EpochDaysLimit * MicrosPerSecond
    ensures e == UnicodeDecodeError <==> FromBigEndian(rec[0..8]) < EpochDaysLimit * MicrosPerSecond && !Utf8(rec[8..11])
  {
    if DeserializeUtcDatetime(rec[0..8]).Err? then OverflowError
    else if !Utf8(rec[8..11]) then UnicodeDecodeError
    else AttributeError
  }

  /** `msg[record * RECORD_LENGTH : record * RECORD_LENGTH + RECORD_LENGTH]` */
  function RecordAt(msg: seq<Byte>, r: int): (rec: seq<Byte>)
    requires 0 <= r < |msg| / RecordLength
    ensures |rec| == RecordLength
  {
    msg[r * RecordLength .. r * RecordLength + RecordLength]
  }

  /**
   * The quotes of a message: one per whole record, in message order; the
   * bytes of a trailing partial record are ignored.
   */
  function Records(msg: seq<Byte>): (qs: seq<Quote>)
    ensures |qs| == |msg| / RecordLength
  {
    seq(|msg| / RecordLength, r requires 0 <= r < |msg| / RecordLength => ParseRecord(RecordAt(msg, r)))
  }

  /**
   * The corrected reading of the first n records: their quotes, or the
   * exception of the first record that cannot be read.
   */
  function ReadRecords(msg: seq<Byte>, n: nat): (r: Result<seq<Quote>, ByteError>)
    requires n <= |msg| / RecordLength
    ensures r.Ok? ==> r.value == Records(msg)[..n]
  {
    if n == 0 then Ok([])
    else
      match ReadRecords(msg, n - 1)
      case Err(e) => Err(e)
      case Ok(qs) =>
        match RecordFault(RecordAt(msg, n - 1))
        case Some(e) => Err(e)
        case None =>
          assert Records(msg)[..n] == Records(msg)[..n - 1] + [Records(msg)[n - 1]];
          Ok(qs + [ParseRecord(RecordAt(msg, n - 1))])
  }

  /** The first n records read exactly when none of them has a fault. */
  lemma {:induction false} ReadRecordsOk(msg: seq<Byte>, n: nat)
    requires n <= |msg| / RecordLength
    ensures ReadRecords(msg, n).Ok? <==> forall k :: 0 <= k < n ==> RecordFault(RecordAt(msg, k)).None?
  {
    if n > 0 {
      ReadRecordsOk(msg, n - 1);
    }
  }

  /** A failed reading raises the exception of the first record with a fault. */
  lemma {:induction false} ReadRecordsFirstFault(msg: seq<Byte>, n: nat)
    requires n <= |msg| / RecordLength
    requires ReadRecords(msg, n).Err?
    ensures exists k :: 0 <= k < n && RecordFault(RecordAt(msg, k)) == Some(ReadRecords(msg, n).error)
                        && forall j :: 0 <= j < k ==> RecordFault(RecordAt(msg, j)).None?
  {
    var e := ReadRecords(msg, n).error;
    if ReadRecords(msg, n - 1).Err? {
      assert ReadRecords(msg, n - 1).error == e;
      ReadRecordsFirstFault(msg, n - 1);
    } else {
      ReadRecordsOk(msg, n - 1);
      var k := n - 1;
      assert RecordFault(RecordAt(msg, k)) == Some(e);
      assert forall j :: 0 <= j < k ==> RecordFault(RecordAt(msg, j)).None?;
    }
  }

  /** Once a prefix fails, every longer prefix fails with the same exception. */
  lemma {:induction false} ReadRecordsErr(msg: seq<Byte>, k: nat, n: nat)
    requires k <= n <= |msg| / RecordLength
    requires ReadRecords(msg, k).Err?
    ensures ReadRecords(msg, n) == ReadRecords(msg, k)
  {
    if k < n {
      ReadRecordsErr(msg, k, n - 1);
    }
  }

  /** `unmarshal_message(msg)` with `.decode` on both currency fields and the time in seconds. */
  method UnmarshalMessage(msg: seq<Byte>) returns (r: Result<seq<Quote>, ByteError>)
    ensures r == ReadRecords(msg, |msg| / RecordLength)
  {
    var numRecords := |msg| / RecordLength;
    var quotes := [];
    for record := 0 to numRecords
      invariant ReadRecords(msg, record) == Ok(quotes)
    {
      var msgBytes := msg[record * RecordLength .. record * RecordLength + RecordLength];
      assert msgBytes == RecordAt(msg, record);
      var timestamp := DeserializeUtcDatetimeFixed(msgBytes[0..8]);
      if timestamp.Err? {
        ReadRecordsErr(msg, record + 1, numRecords);
        return Err(timestamp.error);
      }
      if !Utf8(msgBytes[8..11]) || !Utf8(msgBytes[11..14]) {
        ReadRecordsErr(msg, record + 1, numRecords);
        return Err(UnicodeDecodeError);
      }
      quotes := quotes + [Quote(timestamp.value, msgBytes[8..11], msgBytes[11..14], msgBytes[14..22])];
    }
    return Ok(quotes);
  }

  /**
   * `unmarshal_message(msg)` as written: the first record raises, whichever
   * of its faults comes first, so only a message without a whole record
   * reads (as no quotes).
   */
  function UnmarshalAsWritten(msg: seq<Byte>): (r: Result<seq<Quote>, ByteError>)
    ensures r.Ok? <==> |msg| < RecordLength
    ensures r.Ok? ==> r.value == []
  {
    if |msg| / RecordLength == 0 then Ok([]) else Err(RecordFaultAsWritten(RecordAt(msg, 0)))
  }

  /** A quote the publisher can send: the timestamp fits 8 bytes, the fields their widths. */
  predicate WellFormed(q: Quote)
  {
    q.timestamp < Pow256(8) && |q.currency1| == 3 && |q.currency2| == 3 && |q.price| == 8
  }

  /** The publisher's record for one quote, reserved bytes zero. */
  function MarshalQuote(q: Quote): (rec: seq<Byte>)
    requires WellFormed(q)
    ensures |rec| == RecordLength
  {
    Encode(q.timestamp, 8) + q.currency1 + q.currency2 + q.price + seq(10, _ => 0)
  }

  /** A record reads back as the quote it was made from. */
  lemma ParseMarshalQuote(q: Quote)
    requires WellFormed(q)
    ensures ParseRecord(MarshalQuote(q)) == q
  {
    var rec := MarshalQuote(q);
    DecodeEncode(q.timestamp, 8);
    assert rec[0..8] == Encode(q.timestamp, 8);
    assert rec[8..11] == q.currency1;
    assert rec[11..14] == q.currency2;
    assert rec[14..22] == q.price;
  }

  /** A message holding the quotes' records one after the other. */
  function Marshal(qs: seq<Quote>): (msg: seq<Byte>)
    requires forall q :: q in qs ==> WellFormed(q)
    ensures |msg| == RecordLength * |qs|
  {
    if qs == [] then [] else Marshal(qs[..|qs| - 1]) + MarshalQuote(qs[|qs| - 1])
  }

  /** Record r of a marshalled message is the r-th quote's record. */
  lemma {:induction false} MarshalAt(qs: seq<Quote>, r: int)
    requires forall q :: q in qs ==> WellFormed(q)
    requires 0 <= r < |qs|
    ensures Marshal(qs)[r * RecordLength .. r * RecordLength + RecordLength] == MarshalQuote(qs[r])
  {
    var init := qs[..|qs| - 1];
    var m := Marshal(init);
    var last := MarshalQuote(qs[|qs| - 1]);
    assert Marshal(qs) == m + last;
    if r < |qs| - 1 {
      assert init[r] == qs[r];
      MarshalAt(init, r);
      assert (m + last)[r * RecordLength .. r * RecordLength + RecordLength]
          == m[r * RecordLength .. r * RecordLength + RecordLength];
    } else {
      assert (m + last)[r * RecordLength .. r * RecordLength + RecordLength] == last;
    }
  }

  /**
   * Unmarshalling a marshalled message gives back its quotes, whatever
   * partial record trails it.
   */
  lemma UnmarshalMarshal(qs: seq<Quote>, tail: seq<Byte>)
    requires forall q :: q in qs ==> WellFormed(q)
    requires |tail| < RecordLength
    ensures Records(Marshal(qs) + tail) == qs
  {
    var msg := Marshal(qs) + tail;
    assert |msg| / RecordLength == |qs|;
    forall r | 0 <= r < |qs|
      ensures Records(msg)[r] == qs[r]
    {
      MarshalAt(qs, r);
      assert RecordAt(msg, r) == MarshalQuote(qs[r]);
      ParseMarshalQuote(qs[r]);
    }
  }

  /** A marshalled quote's record reads without fault exactly when the quote is readable. */
  lemma MarshalQuoteFault(q: Quote)
    requires WellFormed(q)
    ensures RecordFault(MarshalQuote(q)).None? <==> Readable(q)
    ensures RecordFaultAsWritten(MarshalQuote(q))
              == if q.timestamp >= EpochDaysLimit * MicrosPerSecond then OverflowError
                 else if !Utf8(q.currency1) then UnicodeDecodeError
                 else AttributeError
  {
    ParseMarshalQuote(q);
  }

  /**
   * As written, every message that holds a quote is turned away: with an
   * OverflowError for any time from 34 days after the epoch on, else with a
   * UnicodeDecodeError for a first currency that is not UTF-8, else with the
   * AttributeError of `.deco`.
   */
  lemma DecoRejectsQuotes(qs: seq<Quote>)
    requires forall q :: q in qs ==> WellFormed(q)
    requires qs != []
    ensures UnmarshalAsWritten(Marshal(qs)).Err?
    ensures UnmarshalAsWritten(Marshal(qs)).error
              == if qs[0].timestamp >= EpochDaysLimit * MicrosPerSecond then OverflowError
                 else if !Utf8(qs[0].currency1) then UnicodeDecodeError
                 else AttributeError
  {
    MarshalAt(qs, 0);
    MarshalQuoteFault(qs[0]);
  }

  /** The corrected reading returns the quotes of a message when all of them are readable. */
  lemma ReadMarshalled(qs: seq<Quote>)
    requires forall q :: q in qs ==> WellFormed(q)
    requires forall q :: q in qs ==> Readable(q)
    ensures ReadRecords(Marshal(qs), |qs|) == Ok(qs)
  {
    var msg := Marshal(qs);
    UnmarshalMarshal(qs, []);
    assert msg + [] == msg;
    forall k | 0 <= k < |qs|
      ensures RecordFault(RecordAt(msg, k)).None?
    {
      MarshalAt(qs, k);
      MarshalQuoteFault(qs[k]);
    }
    ReadRecordsOk(msg, |qs|);
    assert Records(msg)[..|qs|] == qs;
  }
}
