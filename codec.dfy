/** The binary log file written by `saveToBinaryFile` and read back by
    `loadFromBinaryFile` (RFIDSystem.cpp): a log count, then per log three
    length-prefixed strings (userId, userName, action) and the timestamp.
    Counts and lengths are `size_t` and the timestamp is `time_t`, both
    copied from memory; the layout fixed here is that of a 64-bit
    little-endian host: 8-byte unsigned prefixes and an 8-byte two's
    complement timestamp. There is no version tag and no user table. */
module Codec {
  import opened Records

  type byte = x: int | 0 <= x < 256

  /** 2^64: one past the largest `size_t`. */
  const U64Limit: nat := 0x1_0000_0000_0000_0000
  /** 2^63: one past the largest `time_t`. */
  const I64Limit: nat := 0x8000_0000_0000_0000

  function Pow256(k: nat): (r: nat)
    ensures r > 0
  {
    if k == 0 then 1 else 256 * Pow256(k - 1)
  }

  lemma Pow256Eight()
    ensures Pow256(8) == U64Limit
  {
    assert Pow256(4) == 0x1_0000_0000 by {
      assert Pow256(2) == 0x1_0000;
    }
    assert Pow256(8) == Pow256(4) * Pow256(4) by {
      assert Pow256(8) == 256 * 256 * 256 * 256 * Pow256(4);
    }
  }

  /** The `k` low bytes of `n`, least significant first. */
  function LittleEndian(n: nat, k: nat): (r: seq<byte>)
    ensures |r| == k
  {
    if k == 0 then [] else [n % 256] + LittleEndian(n / 256, k - 1)
  }

  function FromLittleEndian(bs: seq<byte>): nat
  {
    if bs == [] then 0 else bs[0] + 256 * FromLittleEndian(bs[1..])
  }

  lemma {:induction false} LittleEndianRoundTrip(n: nat, k: nat)
    requires n < Pow256(k)
    ensures FromLittleEndian(LittleEndian(n, k)) == n
  {
    if k > 0 {
      var p := Pow256(k - 1);
      assert n / 256 < p;
      LittleEndianRoundTrip(n / 256, k - 1);
      assert LittleEndian(n, k)[1..] == LittleEndian(n / 256, k - 1);
    }
  }

  predicate InInt64(t: int)
  {
    -(I64Limit as int) <= t < I64Limit
  }

  /** The bit pattern of a `time_t`, read as an unsigned 64-bit number. */
  function TwosComplement(t: int): (u: nat)
    requires InInt64(t)
    ensures u < U64Limit
  {
    if t >= 0 then t else t + U64Limit
  }

  function FromTwosComplement(u: nat): int
  {
    if u < I64Limit then u else u - U64Limit
  }

  function EncodeU64(n: nat): (r: seq<byte>)
    requires n < U64Limit
    ensures |r| == 8
  {
    LittleEndian(n, 8)
  }

  function EncodeI64(t: int): (r: seq<byte>)
    requires InInt64(t)
    ensures |r| == 8
  {
    LittleEndian(TwosComplement(t), 8)
  }

  /** A C++ `std::string` holds bytes; a Dafny string can be written only
      when each of its characters is one. */
  predicate ByteString(s: string)
  {
    forall i | 0 <= i < |s| :: s[i] as int < 256
  }

  function CharsToBytes(s: string): (r: seq<byte>)
    requires ByteString(s)
    ensures |r| == |s|
  {
    seq(|s|, i requires 0 <= i < |s| => s[i] as int)
  }

  function BytesToChars(bs: seq<byte>): (r: string)
    ensures |r| == |bs|
  {
    seq(|bs|, i requires 0 <= i < |bs| => bs[i] as char)
  }

  predicate EncodableString(s: string)
  {
    ByteString(s) && |s| < U64Limit
  }

  /** What the C++ types guarantee of a log in memory. */
  predicate EncodableLog(log: ScanLog)
  {
    EncodableString(log.userId) && EncodableString(log.userName) &&
    EncodableString(log.action) && InInt64(log.timestamp)
  }

  predicate AllEncodable(logs: seq<ScanLog>)
  {
    forall i | 0 <= i < |logs| :: EncodableLog(logs[i])
  }

  predicate Encodable(logs: seq<ScanLog>)
  {
    |logs| < U64Limit && AllEncodable(logs)
  }

  /** A length prefix followed by the raw characters. */
  function EncodeString(s: string): seq<byte>
    requires EncodableString(s)
  {
    EncodeU64(|s|) + CharsToBytes(s)
  }

  function EncodeLog(log: ScanLog): seq<byte>
    requires EncodableLog(log)
  {
    EncodeString(log.userId) + EncodeString(log.userName) + EncodeString(log.action) +
    EncodeI64(log.timestamp)
  }

  function EncodeLogs(logs: seq<ScanLog>): seq<byte>
    requires AllEncodable(logs)
  {
    if logs == [] then [] else EncodeLog(logs[0]) + EncodeLogs(logs[1..])
  }

  /** The whole file: the count, then each log in sequence order. */
  function Encode(logs: seq<ScanLog>): seq<byte>
    requires Encodable(logs)
  {
    EncodeU64(|logs|) + EncodeLogs(logs)
  }

  lemma {:induction false} EncodeLogsSnoc(logs: seq<ScanLog>, log: ScanLog)
    requires AllEncodable(logs)
    requires EncodableLog(log)
    ensures EncodeLogs(logs + [log]) == EncodeLogs(logs) + EncodeLog(log)
  {
    if logs == [] {
      assert [] + [log] == [log];
      assert [log][1..] == [];
    } else {
      assert (logs + [log])[0] == logs[0];
      assert (logs + [log])[1..] == logs[1..] + [log];
      EncodeLogsSnoc(logs[1..], log);
    }
  }

  /** Writing the first i+1 logs after a header is writing the first i and
      then the four fields of the next. */
  lemma EncodeLogsStep(header: seq<byte>, logs: seq<ScanLog>, i: nat)
    requires AllEncodable(logs) && i < |logs|
    ensures AllEncodable(logs[..i]) && AllEncodable(logs[..i + 1])
    ensures header + EncodeLogs(logs[..i + 1]) ==
              header + EncodeLogs(logs[..i]) + EncodeString(logs[i].userId) + EncodeString(logs[i].userName) +
              EncodeString(logs[i].action) + EncodeI64(logs[i].timestamp)
  {
    var prev, log := logs[..i], logs[i];
    assert logs[..i + 1] == prev + [log];
    EncodeLogsSnoc(prev, log);
    AppendRegroup(header, EncodeLogs(prev), EncodeString(log.userId), EncodeString(log.userName),
                  EncodeString(log.action), EncodeI64(log.timestamp));
  }

  lemma AppendRegroup(h: seq<byte>, e: seq<byte>, a: seq<byte>, b: seq<byte>, c: seq<byte>, d: seq<byte>)
    ensures h + (e + (a + b + c + d)) == h + e + a + b + c + d
  {
  }

  // Readers: each returns the value read and the bytes after it, or None
  // when the input ends too early.

  function ReadU64(bs: seq<byte>): Option<(nat, seq<byte>)>
  {
    if |bs| < 8 then None else Some((FromLittleEndian(bs[..8]), bs[8..]))
  }

  function ReadI64(bs: seq<byte>): Option<(int, seq<byte>)>
  {
    if |bs| < 8 then None else Some((FromTwosComplement(FromLittleEndian(bs[..8])), bs[8..]))
  }

  function ReadString(bs: seq<byte>): Option<(string, seq<byte>)>
  {
    match ReadU64(bs)
    case None => None
    case Some((len, rest)) =>
      if |rest| < len then None else Some((BytesToChars(rest[..len]), rest[len..]))
  }

  function ReadLog(bs: seq<byte>): Option<(ScanLog, seq<byte>)>
  {
    match ReadString(bs)
    case None => None
    case Some((userId, bs1)) =>
      match ReadString(bs1)
      case None => None
      case Some((userName, bs2)) =>
        match ReadString(bs2)
        case None => None
        case Some((action, bs3)) =>
          match ReadI64(bs3)
          case None => None
          case Some((timestamp, bs4)) => Some((ScanLog(userId, userName, action, timestamp), bs4))
  }

  /** `n` logs one after the other. */
  function ReadLogs(bs: seq<byte>, n: nat): Option<(seq<ScanLog>, seq<byte>)>
  {
    if n == 0 then Some(([], bs))
    else match ReadLog(bs)
      case None => None
      case Some((log, rest)) =>
        match ReadLogs(rest, n - 1)
        case None => None
        case Some((logs, rest')) => Some(([log] + logs, rest'))
  }

  /** The count, then that many logs; bytes after the last log are ignored,
      as the source stops reading there. */
  function Decode(bs: seq<byte>): Option<seq<ScanLog>>
  {
    match ReadU64(bs)
    case None => None
    case Some((count, rest)) =>
      match ReadLogs(rest, count)
      case None => None
      case Some((logs, _)) => Some(logs)
  }

  /** `acc` put in front of the logs of a successful read. */
  function PrependLogs(acc: seq<ScanLog>, r: Option<(seq<ScanLog>, seq<byte>)>): Option<(seq<ScanLog>, seq<byte>)>
  {
    match r
    case None => None
    case Some((logs, rest)) => Some((acc + logs, rest))
  }

  lemma PrependNothing(r: Option<(seq<ScanLog>, seq<byte>)>)
    ensures PrependLogs([], r) == r
  {
    if r.Some? {
      assert [] + r.value.0 == r.value.0;
    }
  }

  /** One step of the reading loop: reading n+1 logs is reading one, then n. */
  lemma ReadLogsStep(acc: seq<ScanLog>, bs: seq<byte>, n: nat)
    requires n > 0 && ReadLog(bs).Some?
    ensures PrependLogs(acc, ReadLogs(bs, n)) ==
              PrependLogs(acc + [ReadLog(bs).value.0], ReadLogs(ReadLog(bs).value.1, n - 1))
  {
    match ReadLogs(ReadLog(bs).value.1, n - 1)
    case None =>
    case Some((more, rest)) =>
      assert acc + ([ReadLog(bs).value.0] + more) == acc + [ReadLog(bs).value.0] + more;
  }

  /** Reading n logs: one log, then n - 1 more after it. */
  lemma ReadLogsCons(bs: seq<byte>, n: nat, bs1: seq<byte>, all: seq<ScanLog>, rest: seq<byte>)
    requires n > 0 && all != []
    requires ReadLog(bs) == Some((all[0], bs1))
    requires ReadLogs(bs1, n - 1) == Some((all[1..], rest))
    ensures ReadLogs(bs, n) == Some((all, rest))
  {
    HeadTail(all);
  }

  lemma HeadTail(all: seq<ScanLog>)
    requires all != []
    ensures [all[0]] + all[1..] == all
  {
  }

  /** The state of the reading loop: `acc` has been read, `n` logs remain
      to be read from `bs`, and `target` is what reading them all gives. */
  ghost predicate Reading(target: Option<(seq<ScanLog>, seq<byte>)>, acc: seq<ScanLog>, bs: seq<byte>, n: nat)
  {
    target == PrependLogs(acc, ReadLogs(bs, n))
  }

  lemma ReadingStart(bs: seq<byte>, n: nat)
    ensures Reading(ReadLogs(bs, n), [], bs, n)
  {
    PrependNothing(ReadLogs(bs, n));
  }

  /** One iteration of the loop keeps the state. */
  lemma ReadingStep(target: Option<(seq<ScanLog>, seq<byte>)>, acc: seq<ScanLog>, bs: seq<byte>, n: nat)
    requires n > 0 && ReadLog(bs).Some? && Reading(target, acc, bs, n)
    ensures Reading(target, acc + [ReadLog(bs).value.0], ReadLog(bs).value.1, n - 1)
  {
    ReadLogsStep(acc, bs, n);
  }

  /** The body of the reading loop: reads the next log from `bs`. When it
      cannot, the whole read fails; when it can, the loop state moves on by
      one log. */
  method ReadNext(ghost target: Option<(seq<ScanLog>, seq<byte>)>, ghost acc: seq<ScanLog>, bs: seq<byte>, ghost n: nat)
    returns (next: Option<(ScanLog, seq<byte>)>, ghost left: nat)
    requires n > 0 && Reading(target, acc, bs, n)
    ensures next == ReadLog(bs) && left == n - 1
    ensures next.None? ==> target.None?
    ensures next.Some? ==> Reading(target, acc + [next.value.0], next.value.1, left)
  {
    next := ReadLog(bs);
    left := n - 1;
    if next.Some? {
      ReadingStep(target, acc, bs, n);
    }
  }

  /** When the loop has read all `count` logs, they are what Decode gives. */
  lemma DecodeByLoop(bs: seq<byte>, acc: seq<ScanLog>, tail: seq<byte>)
    requires ReadU64(bs).Some?
    requires Reading(ReadLogs(ReadU64(bs).value.1, ReadU64(bs).value.0), acc, tail, 0)
    ensures Decode(bs) == Some(acc)
  {
    assert acc + [] == acc;
  }

  lemma ReadU64Encode(n: nat, rest: seq<byte>)
    requires n < U64Limit
    ensures ReadU64(EncodeU64(n) + rest) == Some((n, rest))
  {
    var bs := EncodeU64(n) + rest;
    assert bs[..8] == EncodeU64(n) && bs[8..] == rest;
    Pow256Eight();
    LittleEndianRoundTrip(n, 8);
  }

  lemma ReadI64Encode(t: int, rest: seq<byte>)
    requires InInt64(t)
    ensures ReadI64(EncodeI64(t) + rest) == Some((t, rest))
  {
    var bs := EncodeI64(t) + rest;
    assert bs[..8] == EncodeI64(t) && bs[8..] == rest;
    Pow256Eight();
    LittleEndianRoundTrip(TwosComplement(t), 8);
  }

  lemma ReadStringEncode(s: string, rest: seq<byte>)
    requires EncodableString(s)
    ensures ReadString(EncodeString(s) + rest) == Some((s, rest))
  {
    var body := CharsToBytes(s) + rest;
    assert EncodeString(s) + rest == EncodeU64(|s|) + body;
    ReadU64Encode(|s|, body);
    assert body[..|s|] == CharsToBytes(s) && body[|s|..] == rest;
    assert BytesToChars(CharsToBytes(s)) == s;
  }

  lemma ReadLogEncode(log: ScanLog, rest: seq<byte>)
    requires EncodableLog(log)
    ensures ReadLog(EncodeLog(log) + rest) == Some((log, rest))
  {
    var bs3 := EncodeI64(log.timestamp) + rest;
    var bs2 := EncodeString(log.action) + bs3;
    var bs1 := EncodeString(log.userName) + bs2;
    assert EncodeLog(log) + rest == EncodeString(log.userId) + bs1;
    ReadStringEncode(log.userId, bs1);
    ReadStringEncode(log.userName, bs2);
    ReadStringEncode(log.action, bs3);
    ReadI64Encode(log.timestamp, rest);
  }

  lemma EncodeLogsCons(logs: seq<ScanLog>, rest: seq<byte>)
    requires logs != [] && AllEncodable(logs)
    ensures EncodeLogs(logs) + rest == EncodeLog(logs[0]) + (EncodeLogs(logs[1..]) + rest)
  {
  }

  lemma {:induction false} ReadLogsEncode(logs: seq<ScanLog>, rest: seq<byte>)
    requires AllEncodable(logs)
    ensures ReadLogs(EncodeLogs(logs) + rest, |logs|) == Some((logs, rest))
  {
    if logs == [] {
      assert EncodeLogs(logs) + rest == rest;
    } else {
      var bs := EncodeLogs(logs) + rest;
      var tail := EncodeLogs(logs[1..]) + rest;
      EncodeLogsCons(logs, rest);
      ReadLogEncode(logs[0], tail);
      ReadLogsEncode(logs[1..], rest);
      ReadLogsCons(bs, |logs|, tail, logs, rest);
    }
  }

  /** Round trip: reading back what was written for a log sequence gives the
      same logs, in the same order, whatever bytes follow them. */
  lemma DecodeEncode(logs: seq<ScanLog>, trailing: seq<byte>)
    requires Encodable(logs)
    ensures Decode(Encode(logs) + trailing) == Some(logs)
  {
    var body := EncodeLogs(logs) + trailing;
    assert Encode(logs) + trailing == EncodeU64(|logs|) + body;
    ReadU64Encode(|logs|, body);
    ReadLogsEncode(logs, trailing);
  }

  /** The file is the count followed by one record per log, and its size
      is fixed by the string lengths: 8 bytes of count, and per log 32 bytes
      of prefixes and timestamp plus the three strings. */
  lemma {:induction false} EncodeLogsLength(logs: seq<ScanLog>)
    requires AllEncodable(logs)
    ensures |EncodeLogs(logs)| == RecordBytes(logs)
  {
    if logs != [] {
      EncodeLogsLength(logs[1..]);
    }
  }

  function RecordBytes(logs: seq<ScanLog>): nat
  {
    if logs == [] then 0
    else 32 + |logs[0].userId| + |logs[0].userName| + |logs[0].action| + RecordBytes(logs[1..])
  }

  /** Whatever is read is something the C++ types can hold: a count or
      length below 2^64, a string of bytes, a timestamp in 64 bits. */
  lemma {:induction false} FromLittleEndianBound(bs: seq<byte>)
    ensures FromLittleEndian(bs) < Pow256(|bs|)
  {
    if bs != [] {
      FromLittleEndianBound(bs[1..]);
    }
  }

  lemma ReadU64Bound(bs: seq<byte>)
    requires ReadU64(bs).Some?
    ensures ReadU64(bs).value.0 < U64Limit
  {
    FromLittleEndianBound(bs[..8]);
    Pow256Eight();
  }

  lemma ReadStringEncodable(bs: seq<byte>)
    requires ReadString(bs).Some?
    ensures EncodableString(ReadString(bs).value.0)
  {
    ReadU64Bound(bs);
  }

  lemma ReadI64InRange(bs: seq<byte>)
    requires ReadI64(bs).Some?
    ensures InInt64(ReadI64(bs).value.0)
  {
    FromLittleEndianBound(bs[..8]);
    Pow256Eight();
  }

  lemma ReadLogEncodable(bs: seq<byte>)
    requires ReadLog(bs).Some?
    ensures EncodableLog(ReadLog(bs).value.0)
  {
    var bs1 := ReadString(bs).value.1;
    var bs2 := ReadString(bs1).value.1;
    var bs3 := ReadString(bs2).value.1;
    ReadStringEncodable(bs);
    ReadStringEncodable(bs1);
    ReadStringEncodable(bs2);
    ReadI64InRange(bs3);
  }

  /** ReadLogEncodable for a read result held in a variable. */
  lemma ReadResultEncodable(bs: seq<byte>, next: Option<(ScanLog, seq<byte>)>)
    requires next == ReadLog(bs) && next.Some?
    ensures EncodableLog(next.value.0)
  {
    ReadLogEncodable(bs);
  }
}
