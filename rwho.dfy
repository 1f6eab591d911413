/**
 * Package rwho: the BSD rwhod spool packet (`struct whod`) — a 60-byte header
 * followed by zero or more 24-byte session entries, all integers
 * little-endian — its decoder, and the values derived from a decoded header.
 *
 * Instants are integers counting nanoseconds since the Unix epoch; the wall
 * clock that the source reads through time.Since is the parameter `now`.
 */
module Rwho {
  import opened Binary
  import opened Go

  const HeaderSize: nat := 60
  const EntrySize: nat := 24

  type Bytes2 = s: seq<byte> | |s| == 2 witness [0, 0]
  type Bytes8 = s: seq<byte> | |s| == 8 witness [0, 0, 0, 0, 0, 0, 0, 0]
  type Bytes32 = s: seq<byte> | |s| == 32 witness seq(32, _ => 0)
  type Int32x3 = s: seq<int32> | |s| == 3 witness [0, 0, 0]

  // ===========================================================================
  // rwho/Misc.go: bytesToString

  function Char(b: byte): char
  {
    b as char
  }

  /** Go's string(b): one character per byte. */
  function Chars(b: seq<byte>): (s: string)
    ensures |s| == |b| && forall i :: 0 <= i < |b| ==> s[i] == Char(b[i])
  {
    seq(|b|, i requires 0 <= i < |b| => Char(b[i]))
  }

  /**
   * The text of a fixed-width, NUL-padded field: the bytes before the first
   * zero byte, or the whole field when it holds no zero byte.
   */
  function FieldString(b: seq<byte>): (s: string)
    ensures |s| <= |b|
    ensures forall i :: 0 <= i < |s| ==> b[i] != 0 && s[i] == Char(b[i])
    ensures |s| < |b| ==> b[|s|] == 0
    decreases |b|
  {
    if |b| == 0 || b[0] == 0 then "" else [Char(b[0])] + FieldString(b[1..])
  }

  /** FieldString is the string of a prefix of the field and contains no NUL. */
  lemma FieldStringIsNulFreePrefix(b: seq<byte>)
    ensures FieldString(b) == Chars(b[..|FieldString(b)|])
    ensures '\0' !in FieldString(b)
  {
    var s := FieldString(b);
    forall i | 0 <= i < |s| ensures s[i] != '\0' {
      assert s[i] as int == b[i] as int;
    }
  }

  /** Cutting the field's text again, at its own length, changes nothing. */
  lemma FieldStringIdempotent(b: seq<byte>)
    ensures FieldString(b[..|FieldString(b)|]) == FieldString(b)
  {
  }

  /** bytesToString: scans for the first zero byte and cuts there. */
  method BytesToString(b: seq<byte>) returns (s: string)
    ensures s == FieldString(b)
  {
    var end := |b|;
    var i := 0;
    while i < |b|
      invariant 0 <= i <= |b|
      invariant forall j :: 0 <= j < i ==> b[j] != 0
      invariant end == |b|
    {
      if b[i] == 0 {
        end := i;
        break;
      }
      i := i + 1;
    }
    s := Chars(b[..end]);
    assert |FieldString(b)| == end;
  }

  // ===========================================================================
  // rwho/WhodHeader.go

  /** struct whod without its session entries. */
  datatype WhodHeader = WhodHeader(
    Version: byte,
    Type: byte,
    Padding: Bytes2,
    Sendtime: int32,
    Recvtime: int32,
    Hostname: Bytes32,
    LoadAverage: Int32x3,
    Boottime: int32)

  /**
   * The header's fields at their byte offsets in the packet. Every 60 bytes
   * are the layout of exactly the header decoded from them.
   */
  function DecodeHeader(b: seq<byte>): (h: WhodHeader)
    requires |b| == HeaderSize
    ensures EncodeHeader(h) == b
  {
    HeaderPieces(b);
    Bytes4RoundTrip(b[4..8]);
    Bytes4RoundTrip(b[8..12]);
    Bytes4RoundTrip(b[44..48]);
    Bytes4RoundTrip(b[48..52]);
    Bytes4RoundTrip(b[52..56]);
    Bytes4RoundTrip(b[56..60]);
    var la := [LeInt32(b[44..48]), LeInt32(b[48..52]), LeInt32(b[52..56])];
    WhodHeader(b[0], b[1], b[2..4], LeInt32(b[4..8]), LeInt32(b[8..12]), b[12..44], la, LeInt32(b[56..60]))
  }

  /** 60 bytes are the concatenation of the header's field slices. */
  lemma HeaderPieces(b: seq<byte>)
    requires |b| == HeaderSize
    ensures b == [b[0], b[1]] + b[2..4] + b[4..8] + b[8..12] + b[12..44] + b[44..48] + b[48..52]
                 + b[52..56] + b[56..60]
  {
  }

  /** The packet layout of a header (what binary.Write would produce). */
  function EncodeHeader(h: WhodHeader): (b: seq<byte>)
    ensures |b| == HeaderSize
  {
    [h.Version, h.Type] + h.Padding + Int32Le(h.Sendtime) + Int32Le(h.Recvtime) + h.Hostname
    + Int32Le(h.LoadAverage[0]) + Int32Le(h.LoadAverage[1]) + Int32Le(h.LoadAverage[2])
    + Int32Le(h.Boottime)
  }

  /** Decoding the layout of a header gives the header back. */
  lemma HeaderRoundTrip(h: WhodHeader)
    ensures DecodeHeader(EncodeHeader(h)) == h
  {
    var b := EncodeHeader(h);
    Int32RoundTrip(h.Sendtime);
    Int32RoundTrip(h.Recvtime);
    Int32RoundTrip(h.LoadAverage[0]);
    Int32RoundTrip(h.LoadAverage[1]);
    Int32RoundTrip(h.LoadAverage[2]);
    Int32RoundTrip(h.Boottime);
    var p1 := [h.Version, h.Type] + h.Padding;
    var p2 := p1 + Int32Le(h.Sendtime);
    var p3 := p2 + Int32Le(h.Recvtime);
    var p4 := p3 + h.Hostname;
    var p5 := p4 + Int32Le(h.LoadAverage[0]);
    var p6 := p5 + Int32Le(h.LoadAverage[1]);
    var p7 := p6 + Int32Le(h.LoadAverage[2]);
    assert b == p7 + Int32Le(h.Boottime);
    assert b[..56] == p7 && b[56..60] == Int32Le(h.Boottime);
    assert p7[..52] == p6 && b[52..56] == Int32Le(h.LoadAverage[2]);
    assert p6[..48] == p5 && b[48..52] == Int32Le(h.LoadAverage[1]);
    assert p5[..44] == p4 && b[44..48] == Int32Le(h.LoadAverage[0]);
    assert p4[..12] == p3 && b[12..44] == h.Hostname;
    assert p3[..8] == p2 && b[8..12] == Int32Le(h.Recvtime);
    assert p2[..4] == p1 && b[4..8] == Int32Le(h.Sendtime);
    assert b[2..4] == h.Padding;
  }

  /** time.Unix(Sendtime, 0): whole seconds since the epoch, unshifted. */
  function GetSendTime(h: WhodHeader): (t: int)
    ensures t % Second == 0 && t / Second == h.Sendtime
  {
    h.Sendtime * Second
  }

  /** time.Unix(Recvtime, 0). */
  function GetRecvTime(h: WhodHeader): (t: int)
    ensures t % Second == 0 && t / Second == h.Recvtime
  {
    h.Recvtime * Second
  }

  /** time.Unix(Boottime, 0). */
  function GetBootTime(h: WhodHeader): (t: int)
    ensures t % Second == 0 && t / Second == h.Boottime
  {
    h.Boottime * Second
  }

  /** time.Since(GetBootTime()). */
  function GetUptime(h: WhodHeader, now: int): (d: Duration)
    ensures MinDuration <= now - h.Boottime * Second <= MaxDuration ==> d == now - h.Boottime * Second
  {
    Sub(now, GetBootTime(h))
  }

  /** The host's name: the text of the 32-byte field, NUL-free and at most 32 bytes. */
  function GetHostname(h: WhodHeader): (s: string)
    ensures |s| <= 32 && '\0' !in s
    ensures s == Chars(h.Hostname[..|s|])
  {
    FieldStringIsNulFreePrefix(h.Hostname);
    FieldString(h.Hostname)
  }

  /**
   * The load averages in hundredths: the source divides the field by 100 as a
   * float64, and "%1.2f" of that quotient is the two-decimal text FormatCents,
   * which reads back as exactly the field.
   */
  function GetLoadAverage1min(h: WhodHeader): (x: int32)
    ensures ParseCents(FormatCents(x)) == Some(h.LoadAverage[0] as int)
  {
    CentsRoundTrip(h.LoadAverage[0]);
    h.LoadAverage[0]
  }

  function GetLoadAverage5min(h: WhodHeader): (x: int32)
    ensures ParseCents(FormatCents(x)) == Some(h.LoadAverage[1] as int)
  {
    CentsRoundTrip(h.LoadAverage[1]);
    h.LoadAverage[1]
  }

  function GetLoadAverage15min(h: WhodHeader): (x: int32)
    ensures ParseCents(FormatCents(x)) == Some(h.LoadAverage[2] as int)
  {
    CentsRoundTrip(h.LoadAverage[2]);
    h.LoadAverage[2]
  }

  /**
   * More than ten minutes have passed since the sender stamped the packet.
   * Despite the saturating subtraction, this is exactly "strictly more than
   * 600 s old".
   */
  predicate IsDown(h: WhodHeader, now: int): (down: bool)
    ensures down <==> now - h.Sendtime * Second > 600 * Second
  {
    Sub(now, GetSendTime(h)) > 10 * Minute
  }

  /** A packet exactly 600 s old is up; one 601 s or more old is down. */
  lemma IsDownBoundary(h: WhodHeader)
    ensures !IsDown(h, h.Sendtime * Second + 600 * Second)
    ensures IsDown(h, h.Sendtime * Second + 601 * Second)
    ensures !IsDown(h, h.Sendtime * Second + 599 * Second)
  {
  }

  /** Once a header is down it stays down at every later time. */
  lemma IsDownMonotone(h: WhodHeader, now: int, later: int)
    requires now <= later && IsDown(h, now)
    ensures IsDown(h, later)
  {
  }

  /** Down status reads only the send time; uptime reads only the boot time. */
  lemma TimeFieldsIndependent(h: WhodHeader, g: WhodHeader, now: int)
    ensures h.Sendtime == g.Sendtime ==> (IsDown(h, now) <==> IsDown(g, now))
    ensures h.Boottime == g.Boottime ==> GetUptime(h, now) == GetUptime(g, now)
  {
  }

  // ===========================================================================
  // rwho/WhoEntry.go

  /** struct whoent: one logged-in session. */
  datatype WhoEntry = WhoEntry(Tty: Bytes8, User: Bytes8, LoginTime: int32, IdleTime: int32)

  /** The entry's fields at their byte offsets; every 24 bytes are the layout of the entry decoded from them. */
  function DecodeEntry(b: seq<byte>): (e: WhoEntry)
    requires |b| == EntrySize
    ensures EncodeEntry(e) == b
  {
    assert b == b[0..8] + b[8..16] + b[16..20] + b[20..24];
    Bytes4RoundTrip(b[16..20]);
    Bytes4RoundTrip(b[20..24]);
    WhoEntry(b[0..8], b[8..16], LeInt32(b[16..20]), LeInt32(b[20..24]))
  }

  function EncodeEntry(e: WhoEntry): (b: seq<byte>)
    ensures |b| == EntrySize
  {
    e.Tty + e.User + Int32Le(e.LoginTime) + Int32Le(e.IdleTime)
  }

  /** Decoding the layout of an entry gives the entry back. */
  lemma EntryRoundTrip(e: WhoEntry)
    ensures DecodeEntry(EncodeEntry(e)) == e
  {
    var b := EncodeEntry(e);
    Int32RoundTrip(e.LoginTime);
    Int32RoundTrip(e.IdleTime);
    assert b[0..8] == e.Tty && b[8..16] == e.User;
    assert b[16..20] == Int32Le(e.LoginTime) && b[20..24] == Int32Le(e.IdleTime);
  }

  /** The user's name: NUL-free, at most 8 bytes. */
  function GetUser(e: WhoEntry): (s: string)
    ensures |s| <= 8 && '\0' !in s
    ensures s == Chars(e.User[..|s|])
  {
    FieldStringIsNulFreePrefix(e.User);
    FieldString(e.User)
  }

  /** The terminal's name: NUL-free, at most 8 bytes. */
  function GetTty(e: WhoEntry): (s: string)
    ensures |s| <= 8 && '\0' !in s
    ensures s == Chars(e.Tty[..|s|])
  {
    FieldStringIsNulFreePrefix(e.Tty);
    FieldString(e.Tty)
  }

  /** time.Unix(LoginTime, 0): whole seconds since the epoch, unshifted. */
  function GetLoginTime(e: WhoEntry): (t: int)
    ensures t % Second == 0 && t / Second == e.LoginTime
  {
    e.LoginTime * Second
  }

  /** The idle time in nanoseconds; the int64 product cannot overflow for any int32. */
  function GetIdleTime(e: WhoEntry): (d: Duration)
    ensures d % Second == 0 && d / Second == e.IdleTime
  {
    e.IdleTime * Second
  }

  // ===========================================================================
  // rwho/Misc.go: decoding

  /** A decoded packet: its header and its session entries in packet order. */
  datatype Whod = Whod(Header: WhodHeader, WhoEntries: seq<WhoEntry>)

  /** ParseWhodHeader: binary.Read of one header from a reader positioned at pos. */
  function ParseWhodHeader(data: seq<byte>, pos: nat): (r: Result<(WhodHeader, nat)>)
    requires pos <= |data|
    ensures r.Success? <==> |data| - pos >= HeaderSize
    ensures r.Success? ==> r.value.1 == pos + HeaderSize && r.value.1 <= |data|
                           && EncodeHeader(r.value.0) == data[pos..r.value.1]
    ensures r.Failure? ==> (r.error == EOF <==> pos == |data|)
  {
    match ReadFull(data, pos, HeaderSize)
    case Failure(e) => Failure(e)
    case Success(b) =>
      assert b == data[pos..pos + HeaderSize];
      Success((DecodeHeader(b), pos + HeaderSize))
  }

  /** ParseWhoEntry: binary.Read of one entry from a reader positioned at pos. */
  function ParseWhoEntry(data: seq<byte>, pos: nat): (r: Result<(WhoEntry, nat)>)
    requires pos <= |data|
    ensures r.Success? <==> |data| - pos >= EntrySize
    ensures r.Success? ==> r.value.1 == pos + EntrySize && r.value.1 <= |data|
                           && EncodeEntry(r.value.0) == data[pos..r.value.1]
    ensures r.Failure? ==> (r.error == EOF <==> pos == |data|)
  {
    match ReadFull(data, pos, EntrySize)
    case Failure(e) => Failure(e)
    case Success(b) =>
      assert b == data[pos..pos + EntrySize];
      Success((DecodeEntry(b), pos + EntrySize))
  }

  /** The entries held by s: one per whole 24-byte record, a trailing partial record dropped. */
  function DecodeEntries(s: seq<byte>): seq<WhoEntry>
    decreases |s|
  {
    if |s| < EntrySize then [] else [DecodeEntry(s[..EntrySize])] + DecodeEntries(s[EntrySize..])
  }

  /** Reference decoding of a whole packet file. */
  function DecodeWhod(data: seq<byte>): Result<Whod>
  {
    if |data| < HeaderSize then Failure(if |data| == 0 then EOF else UnexpectedEOF)
    else Success(Whod(DecodeHeader(data[..HeaderSize]), DecodeEntries(data[HeaderSize..])))
  }

  /** There are exactly |s| / 24 entries. */
  lemma {:induction false} DecodeEntriesLength(s: seq<byte>)
    ensures |DecodeEntries(s)| == |s| / EntrySize
    decreases |s|
  {
    if |s| >= EntrySize {
      DecodeEntriesLength(s[EntrySize..]);
    }
  }

  /** Entry k is decoded from bytes 24k .. 24k+23 of s, so entries keep packet order. */
  lemma {:induction false} DecodeEntriesAt(s: seq<byte>, k: nat)
    requires k < |s| / EntrySize
    ensures |DecodeEntries(s)| == |s| / EntrySize
    ensures DecodeEntries(s)[k] == DecodeEntry(s[EntrySize * k..EntrySize * k + EntrySize])
    decreases k
  {
    DecodeEntriesLength(s);
    var t := s[EntrySize..];
    assert DecodeEntries(s) == [DecodeEntry(s[..EntrySize])] + DecodeEntries(t);
    if k == 0 {
      assert s[..EntrySize] == s[EntrySize * k..EntrySize * k + EntrySize];
    } else {
      DecodeEntriesAt(t, k - 1);
      assert t[EntrySize * (k - 1)..EntrySize * (k - 1) + EntrySize]
          == s[EntrySize * k..EntrySize * k + EntrySize];
    }
  }

  /** A sequence of entries that agrees with the records of s entry by entry is DecodeEntries(s). */
  lemma EntriesDetermined(s: seq<byte>, es: seq<WhoEntry>)
    requires |es| == |s| / EntrySize
    requires forall k :: 0 <= k < |es| ==>
               es[k] == DecodeEntry(s[EntrySize * k..EntrySize * k + EntrySize])
    ensures es == DecodeEntries(s)
  {
    DecodeEntriesLength(s);
    forall k | 0 <= k < |es| ensures es[k] == DecodeEntries(s)[k] {
      DecodeEntriesAt(s, k);
    }
  }

  /** The entry loop shared by ParseWhod and ReadWhod: reads records from pos until a read fails. */
  method ReadEntries(data: seq<byte>) returns (entries: seq<WhoEntry>)
    requires |data| >= HeaderSize
    ensures |entries| == (|data| - HeaderSize) / EntrySize
    ensures forall k :: 0 <= k < |entries| ==>
              entries[k] == DecodeEntry(data[HeaderSize + EntrySize * k..HeaderSize + EntrySize * k + EntrySize])
    ensures entries == DecodeEntries(data[HeaderSize..])
  {
    var pos := HeaderSize;
    entries := [];
    while true
      invariant HeaderSize <= pos <= |data|
      invariant pos == HeaderSize + EntrySize * |entries|
      invariant forall k :: 0 <= k < |entries| ==>
                  entries[k] == DecodeEntry(data[HeaderSize + EntrySize * k..HeaderSize + EntrySize * k + EntrySize])
      decreases |data| - pos
    {
      var er := ParseWhoEntry(data, pos);
      if er.Failure? {
        break;
      }
      assert data[pos..pos + EntrySize] == EncodeEntry(er.value.0);
      EntryRoundTrip(er.value.0);
      entries := entries + [er.value.0];
      pos := er.value.1;
    }
    assert |data| - pos < EntrySize;
    assert (|data| - HeaderSize) / EntrySize == |entries|;
    var rest := data[HeaderSize..];
    forall k | 0 <= k < |entries|
      ensures entries[k] == DecodeEntry(rest[EntrySize * k..EntrySize * k + EntrySize])
    {
      assert rest[EntrySize * k..EntrySize * k + EntrySize]
          == data[HeaderSize + EntrySize * k..HeaderSize + EntrySize * k + EntrySize];
    }
    EntriesDetermined(rest, entries);
  }

  /**
   * ParseWhod: one header, then entries until a read fails. Only a short
   * header is an error; a trailing partial entry is silently dropped.
   */
  method ParseWhod(data: seq<byte>) returns (r: Result<Whod>)
    ensures r.Failure? <==> |data| < HeaderSize
    ensures r.Failure? ==> (r.error == EOF <==> |data| == 0)
    ensures r.Success? ==> EncodeHeader(r.value.Header) == data[..HeaderSize]
    ensures r.Success? ==> |r.value.WhoEntries| == (|data| - HeaderSize) / EntrySize
    ensures r.Success? ==> forall k :: 0 <= k < |r.value.WhoEntries| ==>
              EncodeEntry(r.value.WhoEntries[k])
              == data[HeaderSize + EntrySize * k..HeaderSize + EntrySize * k + EntrySize]
    ensures r == DecodeWhod(data)
  {
    var hr := ParseWhodHeader(data, 0);
    if hr.Failure? {
      return Failure(hr.error);
    }
    var header := hr.value.0;
    HeaderRoundTrip(header);
    var entries := ReadEntries(data);
    r := Success(Whod(header, entries));
  }

  /** ReadWhod on a file's contents: the same header and entries as ParseWhod, as a pair. */
  method ReadWhod(data: seq<byte>) returns (r: Result<(WhodHeader, seq<WhoEntry>)>)
    ensures r.Failure? <==> DecodeWhod(data).Failure?
    ensures r.Failure? ==> r.error == DecodeWhod(data).error
    ensures r.Success? ==> r.value == (DecodeWhod(data).value.Header, DecodeWhod(data).value.WhoEntries)
  {
    var hr := ParseWhodHeader(data, 0);
    if hr.Failure? {
      return Failure(hr.error);
    }
    HeaderRoundTrip(hr.value.0);
    var entries := ReadEntries(data);
    r := Success((hr.value.0, entries));
  }

  /** The first failure among the results, or all of their packets in order. */
  function Collect(rs: seq<Result<Whod>>): Result<seq<Whod>>
    decreases |rs|
  {
    if |rs| == 0 then Success([])
    else match rs[0]
      case Failure(e) => Failure(e)
      case Success(w) =>
        match Collect(rs[1..])
        case Failure(e) => Failure(e)
        case Success(ws) => Success([w] + ws)
  }

  /** Each file decoded on its own. */
  function DecodeEach(files: seq<seq<byte>>): (rs: seq<Result<Whod>>)
    ensures |rs| == |files| && forall i :: 0 <= i < |files| ==> rs[i] == DecodeWhod(files[i])
  {
    seq(|files|, i requires 0 <= i < |files| => DecodeWhod(files[i]))
  }

  /** Reference result of scanning the spool: the first failure, or every packet in order. */
  function DecodeAll(files: seq<seq<byte>>): Result<seq<Whod>>
  {
    Collect(DecodeEach(files))
  }

  /** Collecting succeeds iff every result does. */
  lemma {:induction false} CollectSucceeds(rs: seq<Result<Whod>>)
    ensures Collect(rs).Success? <==> forall i :: 0 <= i < |rs| ==> rs[i].Success?
    decreases |rs|
  {
    if |rs| > 0 {
      var rest := rs[1..];
      CollectSucceeds(rest);
      assert forall i :: 1 <= i < |rs| ==> rs[i] == rest[i - 1];
    }
  }

  /** A successful collection holds one packet per result, in order. */
  lemma {:induction false} CollectValues(rs: seq<Result<Whod>>)
    requires Collect(rs).Success?
    ensures |Collect(rs).value| == |rs|
    ensures forall i :: 0 <= i < |rs| ==> rs[i] == Success(Collect(rs).value[i])
    decreases |rs|
  {
    if |rs| > 0 {
      var rest := rs[1..];
      CollectValues(rest);
      var ws := Collect(rs).value;
      assert ws == [rs[0].value] + Collect(rest).value;
      forall i | 1 <= i < |rs|
        ensures rs[i] == Success(ws[i])
      {
        assert rs[i] == rest[i - 1] && ws[i] == Collect(rest).value[i - 1];
      }
    }
  }

  /** A failed collection reports the error of the first failing result. */
  lemma {:induction false} CollectFirstFailure(rs: seq<Result<Whod>>)
    requires Collect(rs).Failure?
    ensures exists i :: 0 <= i < |rs| && rs[i] == Failure(Collect(rs).error)
                        && forall j :: 0 <= j < i ==> rs[j].Success?
    decreases |rs|
  {
    var rest := rs[1..];
    if rs[0].Success? {
      CollectFirstFailure(rest);
      var i :| 0 <= i < |rest| && rest[i] == Failure(Collect(rest).error)
               && forall j :: 0 <= j < i ==> rest[j].Success?;
      assert rs[i + 1] == rest[i];
      assert forall j :: 1 <= j < i + 1 ==> rs[j] == rest[j - 1];
    }
  }

  /** Prepends already-decoded packets to the outcome of decoding the rest. */
  function Prepend(done: seq<Whod>, rest: Result<seq<Whod>>): Result<seq<Whod>>
  {
    match rest
    case Failure(e) => Failure(e)
    case Success(ws) => Success(done + ws)
  }

  /** Collecting from i on: result i's failure, or its packet before the rest's. */
  lemma CollectFrom(rs: seq<Result<Whod>>, i: nat)
    requires i < |rs|
    ensures Collect(rs[i..]) == match rs[i]
              case Failure(e) => Failure(e)
              case Success(w) => Prepend([w], Collect(rs[i + 1..]))
  {
    var rest := rs[i..];
    assert rest[0] == rs[i] && rest[1..] == rs[i + 1..];
  }

  lemma PrependAppend(done: seq<Whod>, w: Whod, rest: Result<seq<Whod>>)
    ensures Prepend(done, Prepend([w], rest)) == Prepend(done + [w], rest)
  {
    if rest.Success? {
      assert done + ([w] + rest.value) == (done + [w]) + rest.value;
    }
  }

  /**
   * What a scan of the files may return: success iff every file holds a
   * header, with packet i decoded from file i; otherwise the error of the
   * first file that holds none: EOF if it is empty, UnexpectedEOF if it is
   * cut short.
   */
  predicate ScanResult(files: seq<seq<byte>>, r: Result<seq<Whod>>)
  {
    (r.Success? <==> forall i :: 0 <= i < |files| ==> |files[i]| >= HeaderSize)
    && (r.Success? ==> |r.value| == |files|
                       && forall i :: 0 <= i < |files| ==> DecodeWhod(files[i]) == Success(r.value[i]))
    && (r.Failure? ==> exists i :: 0 <= i < |files| && |files[i]| < HeaderSize
                                   && r.error == (if |files[i]| == 0 then EOF else UnexpectedEOF)
                                   && forall j :: 0 <= j < i ==> |files[j]| >= HeaderSize)
  }

  /** The reference scan returns what a scan may return. */
  lemma ScanOutcome(files: seq<seq<byte>>)
    ensures ScanResult(files, DecodeAll(files))
  {
    var rs := DecodeEach(files);
    CollectSucceeds(rs);
    if Collect(rs).Success? {
      CollectValues(rs);
    } else {
      CollectFirstFailure(rs);
    }
  }

  /**
   * ScanHosts over the contents of the spool files, in the order the glob
   * returned their paths: one packet per file, or the error of the first file
   * that fails, with no partial list.
   */
  method ScanHosts(files: seq<seq<byte>>) returns (r: Result<seq<Whod>>)
    ensures ScanResult(files, r)
    ensures r == DecodeAll(files)
  {
    ghost var rs := DecodeEach(files);
    var l: seq<Whod> := [];
    assert rs[0..] == rs;
    assert Prepend(l, Collect(rs)) == Collect(rs) by {
      if Collect(rs).Success? { assert l + Collect(rs).value == Collect(rs).value; }
    }
    for i := 0 to |files|
      invariant |l| == i
      invariant Collect(rs) == Prepend(l, Collect(rs[i..]))
    {
      CollectFrom(rs, i);
      var w := ParseWhod(files[i]);
      if w.Failure? {
        r := Failure(w.error);
        ScanOutcome(files);
        return;
      }
      PrependAppend(l, w.value, Collect(rs[i + 1..]));
      l := l + [w.value];
    }
    assert rs[|files|..] == [] && l + [] == l;
    r := Success(l);
    ScanOutcome(files);
  }
}
