/** The write-ahead log (internal/storage/wal.go, format.go): frames with a big-endian header, a
    writer that appends batches, and a replay that walks the frames. One `char` stands for one byte.
    CRC-32C and zlib are parameters. */
module Wal {
  import opened Values
  import opened Literals
  import opened Sequences

  /** An unsigned 32-bit number. */
  type Word = n: nat | n < 0x1_0000_0000

  /** The checksum, the compressor, and what reading at most `n` bytes of a compressed stream gives. */
  datatype Codec = Codec(crc: string -> Word, deflate: string -> string, inflate: (string, nat) -> Option<string>)

  /** Decompression undoes compression when it may read all of it. */
  ghost predicate Undoes(c: Codec) {
    forall p: string, n: nat :: |p| <= n ==> c.inflate(c.deflate(p), n) == Some(p)
  }

  const MAGIC := "SUPERDB1"
  const SNAPSHOT := 'S'
  const WAL := 'W'
  const HEADER := 20
  const CHECKSUM_HEADER := 24
  const MAX_PAYLOAD := 0x1000_0000

  // -------------------------------------------------------------- numbers

  function Byte(n: nat): char { (n % 256) as char }

  function PutWord(n: Word): (s: string)
    ensures |s| == 4
  {
    [Byte(n / 0x100_0000), Byte(n / 0x1_0000), Byte(n / 0x100), Byte(n)]
  }

  function GetWord(s: string): nat
    requires |s| == 4
  {
    s[0] as int * 0x100_0000 + s[1] as int * 0x1_0000 + s[2] as int * 0x100 + s[3] as int
  }

  lemma WordRoundTrip(n: Word)
    ensures GetWord(PutWord(n)) == n
  {
    var a, b, d := n / 0x100, n / 0x1_0000, n / 0x100_0000;
    assert a == n / 0x100 && n == 0x100 * a + n % 0x100;
    assert b == a / 0x100 && a == 0x100 * b + a % 0x100;
    assert d == b / 0x100 && b == 0x100 * d + b % 0x100;
    assert d % 0x100 == d;
  }

  // --------------------------------------------------------------- frames

  predicate ValidVersion(kind: char, version: int) {
    version == 1 || (version == 2 && kind == WAL) || version == 3
  }

  function HeaderSize(version: int): nat { if version == 3 then CHECKSUM_HEADER else HEADER }

  /** The bytes of a frame around a stored payload. */
  function Frame(c: Codec, kind: char, version: nat, raw: Word, stored: string): (s: string)
    requires version < 256 && |stored| < 0x1_0000_0000
    ensures |s| == HeaderSize(version) + |stored|
  {
    MAGIC + [kind, Byte(version), Byte(0), Byte(0)] + PutWord(raw) + PutWord(|stored|)
    + (if version == 3 then PutWord(c.crc(stored)) else "") + stored
  }

  datatype Decoded = Decoded(payload: string, size: nat)

  /** Reads the frame at the start of `h`. */
  function Decode(c: Codec, h: string, kind: char): Result<Decoded> {
    if |h| < HEADER then Err("truncated SUPERDB header")
    else if h[..8] != MAGIC then Err("invalid SUPERDB magic")
    else if h[8] != kind then Err("unexpected SUPERDB record kind")
    else
      var version := h[9] as int;
      if !ValidVersion(kind, version) then Err("unsupported SUPERDB version")
      else if version == 3 && |h| < CHECKSUM_HEADER then Err("truncated SUPERDB checksum header")
      else
        var size, raw, stored := HeaderSize(version), GetWord(h[12..16]), GetWord(h[16..20]);
        if raw > MAX_PAYLOAD || stored > MAX_PAYLOAD then Err("SUPERDB payload exceeds size limit")
        else if size + stored > |h| then Err("truncated SUPERDB payload")
        else Unpack(c, kind, version, h[..size], raw, h[size..size + stored])
  }

  /** Checks and unpacks the stored payload behind a header. */
  function Unpack(c: Codec, kind: char, version: int, header: string, raw: nat, stored: string): Result<Decoded>
    requires |header| == HeaderSize(version)
  {
    if version == 3 && GetWord(header[20..24]) != c.crc(stored) then Err("SUPERDB checksum mismatch")
    else if kind == WAL && version >= 2 then
      if |stored| != raw then Err("payload length mismatch") else Ok(Decoded(stored, |header| + |stored|))
    else match c.inflate(stored, raw + 1)
      case None => Err("read compressed payload")
      case Some(p) => if |p| != raw then Err("payload length mismatch") else Ok(Decoded(p, |header| + |stored|))
  }

  lemma HeaderParts(kind: char, version: nat, raw: Word, size: Word, tail: string)
    ensures var h := MAGIC + [kind, Byte(version), Byte(0), Byte(0)] + PutWord(raw) + PutWord(size) + tail;
            h[..8] == MAGIC && h[8] == kind && h[9] == Byte(version) && h[12..16] == PutWord(raw)
              && h[16..20] == PutWord(size)
  {
    hide PutWord, Byte;
  }

  lemma TailParts(header: string, sum: string, stored: string, rest: string)
    ensures var h, size := header + sum + stored + rest, |header| + |sum|;
            h == header + (sum + stored + rest) && h[..size][|header|..] == sum && h[size..size + |stored|] == stored
  {
    var h := header + sum + stored + rest;
    assert h == header + sum + (stored + rest);
    assert h[|header| + |sum|..] == stored + rest;
  }

  /** The parts of a frame, wherever more bytes follow it. */
  lemma FrameParts(c: Codec, kind: char, version: nat, raw: Word, stored: string, rest: string)
    requires version < 256 && |stored| < 0x1_0000_0000
    ensures var h, size := Frame(c, kind, version, raw, stored) + rest, HeaderSize(version);
            && |h| == size + |stored| + |rest| && h[..8] == MAGIC && h[8] == kind && h[9] == Byte(version)
            && h[12..16] == PutWord(raw) && h[16..20] == PutWord(|stored|) && h[size..size + |stored|] == stored
            && (version == 3 ==> h[..size][20..24] == PutWord(c.crc(stored)))
  {
    hide PutWord, Byte;
    var sum := if version == 3 then PutWord(c.crc(stored)) else "";
    var header := MAGIC + [kind, Byte(version), Byte(0), Byte(0)] + PutWord(raw) + PutWord(|stored|);
    TailParts(header, sum, stored, rest);
    HeaderParts(kind, version, raw, |stored|, sum + stored + rest);
  }

  /** What a frame holds: the payload itself, or its compressed form. */
  function Stored(c: Codec, kind: char, version: nat, payload: string): string {
    if kind == WAL && version >= 2 then payload else c.deflate(payload)
  }

  /** Frames the reader accepts for this kind, within the size limit. */
  predicate Fits(c: Codec, kind: char, version: nat, payload: string) {
    (kind == WAL || kind == SNAPSHOT) && ValidVersion(kind, version)
    && |payload| <= MAX_PAYLOAD && |Stored(c, kind, version, payload)| <= MAX_PAYLOAD
  }

  function FrameOf(c: Codec, kind: char, version: nat, payload: string): string
    requires Fits(c, kind, version, payload)
  {
    Frame(c, kind, version, |payload|, Stored(c, kind, version, payload))
  }

  /** A frame of any readable version gives back its payload, whatever follows it. */
  lemma FrameRoundTrip(c: Codec, kind: char, version: nat, payload: string, rest: string)
    requires Fits(c, kind, version, payload) && Undoes(c)
    ensures var f := FrameOf(c, kind, version, payload);
            Decode(c, f + rest, kind) == Ok(Decoded(payload, |f|))
  {
    hide PutWord, GetWord, Undoes, Frame;
    var stored := Stored(c, kind, version, payload);
    FrameParts(c, kind, version, |payload|, stored, rest);
    WordRoundTrip(|payload|);
    WordRoundTrip(|stored|);
    WordRoundTrip(c.crc(stored));
    if stored != payload || kind != WAL || version < 2 {
      Inflates(c, payload);
    }
  }

  lemma Inflates(c: Codec, payload: string)
    requires Undoes(c)
    ensures c.inflate(c.deflate(payload), |payload| + 1) == Some(payload)
  {
  }

  /** Part of a frame is never a frame. */
  lemma TornFrame(c: Codec, kind: char, version: nat, payload: string, n: nat)
    requires Fits(c, kind, version, payload) && n < |FrameOf(c, kind, version, payload)|
    ensures Decode(c, FrameOf(c, kind, version, payload)[..n], kind).Err?
  {
    hide PutWord, GetWord, Frame;
    var f := FrameOf(c, kind, version, payload);
    var stored := Stored(c, kind, version, payload);
    FrameParts(c, kind, version, |payload|, stored, "");
    assert f + "" == f;
    WordRoundTrip(|stored|);
    if n >= HEADER {
      assert f[..n][9] == f[9] && f[..n][16..20] == f[16..20];
    }
  }

  /** encodeFrame: refuses combinations no reader takes, and oversized payloads. */
  method EncodeFrame(c: Codec, kind: char, version: nat, payload: string, compress: bool) returns (res: Result<string>)
    requires version < 256
    ensures (kind == WAL || kind == SNAPSHOT) && ValidVersion(kind, version) ==>
              (res.Ok? <==> Fits(c, kind, version, payload) && (compress <==> !(kind == WAL && version >= 2)))
    ensures res.Ok? && Fits(c, kind, version, payload) ==> res.value == FrameOf(c, kind, version, payload)
    ensures res.Ok? ==> |payload| <= MAX_PAYLOAD && |res.value| <= CHECKSUM_HEADER + MAX_PAYLOAD
  {
    if kind == SNAPSHOT && version == 2 {
      return Err("invalid snapshot version");
    }
    if kind == SNAPSHOT && !compress {
      return Err("snapshot frames must be compressed");
    }
    if kind == WAL {
      if version == 1 && !compress {
        return Err("v1 WAL frames must be compressed");
      }
      if version >= 2 && compress {
        return Err("v2/v3 WAL frames must be raw");
      }
    }
    if |payload| > MAX_PAYLOAD {
      return Err("payload exceeds SUPERDB size limit");
    }
    var encoded := payload;
    if compress {
      encoded := c.deflate(payload);
    }
    if |encoded| > MAX_PAYLOAD {
      return Err("compressed payload exceeds SUPERDB size limit");
    }
    var out := MAGIC + [kind, Byte(version), Byte(0), Byte(0)] + PutWord(|payload|) + PutWord(|encoded|);
    if version == 3 {
      out := out + PutWord(c.crc(encoded));
    }
    return Ok(out + encoded);
  }

  // --------------------------------------------------------------- the log

  /** One record, in any version a log may still hold. */
  datatype Record = Record(version: nat, sql: string)

  predicate Readable(c: Codec, r: Record) { Fits(c, WAL, r.version, r.sql) }

  ghost predicate AllReadable(c: Codec, rs: seq<Record>) { forall i :: 0 <= i < |rs| ==> Readable(c, rs[i]) }

  function BytesOf(c: Codec, r: Record): (s: string)
    requires Readable(c, r)
    ensures |s| >= HEADER
  {
    FrameOf(c, WAL, r.version, r.sql)
  }

  /** The file that holds these records. */
  function LogOf(c: Codec, rs: seq<Record>): string
    requires AllReadable(c, rs)
  {
    if rs == [] then "" else BytesOf(c, rs[0]) + LogOf(c, rs[1..])
  }

  function Sqls(rs: seq<Record>): (out: seq<string>)
    ensures |out| == |rs|
  {
    seq(|rs|, i requires 0 <= i < |rs| => rs[i].sql)
  }

  datatype Delivery = Delivery(sqls: seq<string>, ok: bool)

  /** The payloads of the frames of `h`, up to the first that does not decode. */
  function Frames(c: Codec, h: string): Delivery
    decreases |h|
  {
    if h == "" then Delivery([], true)
    else match Decode(c, h, WAL)
      case Err(_) => Delivery([], false)
      case Ok(d) =>
        var rest := Frames(c, h[d.size..]);
        Delivery([d.payload] + rest.sqls, rest.ok)
  }

  /** How many records lie wholly before byte `n`. */
  function Whole(c: Codec, rs: seq<Record>, n: nat): (k: nat)
    requires AllReadable(c, rs)
    ensures k <= |rs|
  {
    if rs == [] || n < |BytesOf(c, rs[0])| then 0 else 1 + Whole(c, rs[1..], n - |BytesOf(c, rs[0])|)
  }

  /** Cut anywhere, the frames are exactly the records wholly before the cut, and they end well exactly
      when the cut is on a record boundary. */
  lemma {:induction false} FramesOfCut(c: Codec, rs: seq<Record>, n: nat)
    requires AllReadable(c, rs) && Undoes(c) && n <= |LogOf(c, rs)|
    ensures Frames(c, LogOf(c, rs)[..n])
            == Delivery(Sqls(rs[..Whole(c, rs, n)]), n == |LogOf(c, rs[..Whole(c, rs, n)])|)
    decreases |rs|
  {
    hide Decode, FrameOf, Undoes, Fits;
    if n == 0 {
    } else {
      var f, tail := BytesOf(c, rs[0]), LogOf(c, rs[1..]);
      var log := f + tail;
      if n < |f| {
        assert log[..n] == f[..n];
        TornFrame(c, WAL, rs[0].version, rs[0].sql, n);
      } else {
        assert log[..n] == f + tail[..n - |f|];
        FrameRoundTrip(c, WAL, rs[0].version, rs[0].sql, tail[..n - |f|]);
        assert log[..n][|f|..] == tail[..n - |f|];
        FramesOfCut(c, rs[1..], n - |f|);
        var k := Whole(c, rs[1..], n - |f|);
        var kept := rs[..k + 1];
        assert kept[0] == rs[0] && kept[1..] == rs[1..][..k];
        assert Sqls(kept) == [rs[0].sql] + Sqls(rs[1..][..k]);
      }
    }
  }

  lemma {:induction false} WholeIs(c: Codec, rs: seq<Record>, n: nat, k: nat)
    requires AllReadable(c, rs) && k <= |rs|
    ensures Whole(c, rs, n) >= k <==> |LogOf(c, rs[..k])| <= n
    decreases |rs|
  {
    hide FrameOf, Readable;
    if k > 0 {
      var first := rs[..k];
      assert first[0] == rs[0] && first[1..] == rs[1..][..k - 1];
      if n >= |BytesOf(c, rs[0])| {
        WholeIs(c, rs[1..], n - |BytesOf(c, rs[0])|, k - 1);
      }
    }
  }

  /** The records delivered are the most that fit before the cut. */
  lemma WholeFits(c: Codec, rs: seq<Record>, n: nat)
    requires AllReadable(c, rs)
    ensures var k := Whole(c, rs, n);
            |LogOf(c, rs[..k])| <= n && (k < |rs| ==> n < |LogOf(c, rs[..k + 1])|)
  {
    hide Whole, LogOf;
    var k := Whole(c, rs, n);
    WholeIs(c, rs, n, k);
    if k < |rs| { WholeIs(c, rs, n, k + 1); }
  }

  /** The cut is between two records, or at an end. */
  ghost predicate OnBoundary(c: Codec, rs: seq<Record>, n: nat)
    requires AllReadable(c, rs)
  {
    exists k :: 0 <= k <= |rs| && n == |LogOf(c, rs[..k])|
  }

  lemma BoundaryIff(c: Codec, rs: seq<Record>, n: nat)
    requires AllReadable(c, rs)
    ensures OnBoundary(c, rs, n) <==> n == |LogOf(c, rs[..Whole(c, rs, n)])|
  {
    hide Whole, LogOf;
    WholeFits(c, rs, n);
    if OnBoundary(c, rs, n) {
      var k :| 0 <= k <= |rs| && n == |LogOf(c, rs[..k])|;
      WholeIs(c, rs, n, k);
      var w := Whole(c, rs, n);
      if k < w { WholeIs(c, rs, n, w); Shorter(c, rs, k, w); }
    }
  }

  /** More records make a longer file. */
  lemma Shorter(c: Codec, rs: seq<Record>, k: nat, w: nat)
    requires AllReadable(c, rs) && k < w <= |rs|
    ensures |LogOf(c, rs[..k])| < |LogOf(c, rs[..w])|
  {
    hide FrameOf, Readable;
    assert rs[..w] == rs[..k] + rs[k..w];
    LogConcat(c, rs[..k], rs[k..w]);
  }

  lemma {:induction false} LogConcat(c: Codec, a: seq<Record>, b: seq<Record>)
    requires AllReadable(c, a) && AllReadable(c, b)
    ensures AllReadable(c, a + b) && LogOf(c, a + b) == LogOf(c, a) + LogOf(c, b)
    decreases |a|
  {
    hide FrameOf, Readable;
    if a == [] {
      assert a + b == b;
    } else {
      assert (a + b)[0] == a[0] && (a + b)[1..] == a[1..] + b;
      LogConcat(c, a[1..], b);
    }
  }

  // --------------------------------------------------------------- writing

  /** The records a writer makes of these statements. */
  function New(sqls: seq<string>): (rs: seq<Record>)
    ensures |rs| == |sqls|
  {
    seq(|sqls|, i requires 0 <= i < |sqls| => Record(3, sqls[i]))
  }

  predicate Small(sqls: seq<string>) { forall i :: 0 <= i < |sqls| ==> |sqls[i]| <= MAX_PAYLOAD }

  lemma NewReadable(c: Codec, sqls: seq<string>)
    requires Small(sqls)
    ensures AllReadable(c, New(sqls)) && Sqls(New(sqls)) == sqls
  {
  }

  lemma NewSnoc(c: Codec, sqls: seq<string>, i: nat)
    requires Small(sqls) && i < |sqls|
    ensures Small(sqls[..i]) && Small(sqls[..i + 1]) && AllReadable(c, New(sqls[..i]))
            && AllReadable(c, New(sqls[..i + 1]))
    ensures LogOf(c, New(sqls[..i + 1])) == LogOf(c, New(sqls[..i])) + Frame(c, WAL, 3, |sqls[i]|, sqls[i])
  {
    hide Frame;
    NewReadable(c, sqls[..i]);
    NewReadable(c, sqls[..i + 1]);
    var last := [Record(3, sqls[i])];
    assert New(sqls[..i + 1]) == New(sqls[..i]) + last;
    assert last[1..] == [] && LogOf(c, last[1..]) == "" && LogOf(c, last) == BytesOf(c, last[0]) + "";
    LogConcat(c, New(sqls[..i]), last);
  }

  /** The bytes of one batch. */
  function Encoded(c: Codec, sqls: seq<string>): string
    requires Small(sqls)
  {
    NewReadable(c, sqls);
    LogOf(c, New(sqls))
  }

  /** What is left of a write of which only so many bytes were taken. */
  function Torn(s: string, taken: nat): string { if taken < |s| then s[..taken] else s }

  lemma EncodedSnoc(c: Codec, sqls: seq<string>, i: nat)
    requires Small(sqls) && i < |sqls|
    ensures Small(sqls[..i]) && Small(sqls[..i + 1])
    ensures Encoded(c, sqls[..i + 1]) == Encoded(c, sqls[..i]) + Frame(c, WAL, 3, |sqls[i]|, sqls[i])
  {
    hide Frame, LogOf;
    NewSnoc(c, sqls, i);
  }

  /** A write with its sync: everything is there and safe, everything is there but the sync failed, or only
      so many bytes were taken. The last two are reported as errors. */
  datatype Written = Stored | Unsynced | Short(taken: nat)

  function Taken(s: string, fs: Written): string { if fs.Short? then Torn(s, fs.taken) else s }

  class Writer {
    /** The bytes of the file so far. */
    var file: string
    var closed: bool

    constructor (existing: string)
      ensures file == existing && !closed
    {
      file, closed := existing, false;
    }

    /** The encode buffer of one batch. */
    static method EncodeBatch(c: Codec, sqls: seq<string>) returns (encoded: string)
      requires Small(sqls)
      ensures encoded == Encoded(c, sqls)
    {
      hide Encoded;
      NothingEncoded(c);
      encoded := "";
      for i := 0 to |sqls|
        invariant Small(sqls[..i]) && encoded == Encoded(c, sqls[..i])
      {
        EncodedSnoc(c, sqls, i);
        var header := MAGIC + [WAL, Byte(3), Byte(0), Byte(0)] + PutWord(|sqls[i]|) + PutWord(|sqls[i]|);
        encoded := encoded + (header + PutWord(c.crc(sqls[i])) + sqls[i]);
      }
      assert sqls[..|sqls|] == sqls;
    }

    /** Appends a batch as one write and syncs; `fs` is what the file system makes of it. */
    method Append(c: Codec, sqls: seq<string>, fs: Written) returns (ok: bool)
      modifies `file
      ensures ok <==> sqls == [] || (Small(sqls) && !closed && fs.Stored?)
      ensures file == if Small(sqls) && !closed then old(file) + Taken(Encoded(c, sqls), fs) else old(file)
    {
      hide Encoded;
      NothingEncoded(c);
      assert file + "" == file;
      if |sqls| == 0 {
        return true;
      }
      for i := 0 to |sqls|
        invariant forall j :: 0 <= j < i ==> |sqls[j]| <= MAX_PAYLOAD
      {
        if |sqls[i]| > MAX_PAYLOAD {
          return false;
        }
      }
      var encoded := EncodeBatch(c, sqls);
      if closed {
        return false;
      }
      file := file + Taken(encoded, fs);
      return fs.Stored?;
    }
  }

  lemma NothingEncoded(c: Codec)
    ensures Encoded(c, []) == ""
  {
    assert New([]) == [];
  }

  // -------------------------------------------------------------- replaying

  /** The state after the records that `apply` takes, up to the first it refuses. */
  datatype Play<S> = Play(state: S, ok: bool)

  function Played<S>(apply: (S, string) -> Option<S>, from: S, sqls: seq<string>): Play<S> {
    if sqls == [] then Play(from, true)
    else
      var before := Played(apply, from, sqls[..|sqls| - 1]);
      if !before.ok then before
      else match apply(before.state, sqls[|sqls| - 1])
        case None => Play(before.state, false)
        case Some(s) => Play(s, true)
  }

  /** The non-empty trimmed lines of a log from before framing. */
  function Lines(b: string): seq<string> {
    if b == "" then []
    else
      var n := LineEnd(b);
      var line := TrimSpace(b[..n]);
      (if line == "" then [] else [line]) + if n == |b| then [] else Lines(b[n + 1..])
  }

  function LineEnd(b: string): (n: nat)
    ensures n <= |b| && '\n' !in b[..n] && (n < |b| ==> b[n] == '\n')
  {
    if b == "" || b[0] == '\n' then 0 else 1 + LineEnd(b[1..])
  }

  /** What a replay hands to `apply`. */
  function Contents(c: Codec, b: string): Delivery {
    if |b| >= 8 && b[..8] == MAGIC then Frames(c, b) else Delivery(Lines(b), true)
  }

  lemma PlayedSnoc<S>(apply: (S, string) -> Option<S>, from: S, done: seq<string>, sql: string)
    ensures var before := Played(apply, from, done);
            Played(apply, from, done + [sql]) ==
            if !before.ok then before
            else match apply(before.state, sql) case None => Play(before.state, false) case Some(s) => Play(s, true)
  {
    assert (done + [sql])[..|done|] == done;
  }

  /** After a refusal nothing more is taken. */
  lemma {:induction false} PlayedStops<S>(apply: (S, string) -> Option<S>, from: S, done: seq<string>,
                                          rest: seq<string>)
    requires !Played(apply, from, done).ok
    ensures Played(apply, from, done + rest) == Played(apply, from, done)
    decreases |rest|
  {
    if rest == [] {
      assert done + rest == done;
    } else {
      var n := |rest| - 1;
      assert done + rest == (done + rest[..n]) + [rest[n]];
      PlayedStops(apply, from, done, rest[..n]);
      PlayedSnoc(apply, from, done + rest[..n], rest[n]);
    }
  }

  /** A replay under way: `done` records are applied and `rest` is still to come. */
  ghost predicate Playing<S(!new)>(apply: (S, string) -> Option<S>, from: S, all: Delivery, done: seq<string>,
                                   rest: Delivery, state: S) {
    Played(apply, from, done) == Play(state, true) && all == Delivery(done + rest.sqls, rest.ok)
  }

  lemma PlayNext<S(!new)>(apply: (S, string) -> Option<S>, from: S, all: Delivery, done: seq<string>, rest: Delivery,
                          state: S)
    requires Playing(apply, from, all, done, rest, state) && rest.sqls != []
    ensures match apply(state, rest.sqls[0])
            case None => Played(apply, from, all.sqls) == Play(state, false)
            case Some(s) => Playing(apply, from, all, done + [rest.sqls[0]], Delivery(rest.sqls[1..], rest.ok), s)
  {
    hide Played;
    var sql, more := rest.sqls[0], rest.sqls[1..];
    PlayedSnoc(apply, from, done, sql);
    assert all.sqls == (done + [sql]) + more;
    if apply(state, sql).None? { PlayedStops(apply, from, done + [sql], more); }
  }

  lemma PlayDone<S(!new)>(apply: (S, string) -> Option<S>, from: S, all: Delivery, done: seq<string>, rest: Delivery,
                          state: S)
    requires Playing(apply, from, all, done, rest, state) && rest.sqls == []
    ensures Played(apply, from, all.sqls) == Play(state, true) && all.ok == rest.ok
  {
    assert done + rest.sqls == done;
  }

  lemma PlayStart<S(!new)>(apply: (S, string) -> Option<S>, from: S, all: Delivery)
    ensures Playing(apply, from, all, [], all, from)
  {
    assert [] + all.sqls == all.sqls;
  }

  lemma FramesAt(c: Codec, b: string, offset: nat)
    requires offset <= |b|
    ensures offset == |b| ==> Frames(c, b[offset..]) == Delivery([], true)
    ensures offset < |b| ==> match Decode(c, b[offset..], WAL)
                             case Err(_) => Frames(c, b[offset..]) == Delivery([], false)
                             case Ok(d) =>
                               && 0 < d.size <= |b| - offset && Frames(c, b[offset..]).sqls != []
                               && Frames(c, b[offset..]).sqls[0] == d.payload
                               && Frames(c, b[offset + d.size..])
                                 == Delivery(Frames(c, b[offset..]).sqls[1..], Frames(c, b[offset..]).ok)
  {
    if offset < |b| && Decode(c, b[offset..], WAL).Ok? {
      assert b[offset..][Decode(c, b[offset..], WAL).value.size..]
             == b[offset + Decode(c, b[offset..], WAL).value.size..];
    }
  }

  method ReplayFrames<S(!new)>(c: Codec, b: string, apply: (S, string) -> Option<S>, from: S)
    returns (state: S, ok: bool)
    ensures var all := Frames(c, b); var run := Played(apply, from, all.sqls);
            state == run.state && (ok <==> all.ok && run.ok)
  {
    hide Decode, Frames, Played, Playing;
    state := from;
    var offset := 0;
    ghost var done, all := [], Frames(c, b);
    assert b[0..] == b;
    PlayStart(apply, from, all);
    while offset < |b|
      invariant offset <= |b| && Playing(apply, from, all, done, Frames(c, b[offset..]), state)
      decreases |b| - offset
    {
      FramesAt(c, b, offset);
      match Decode(c, b[offset..], WAL) {
        case Err(_) =>
          PlayDone(apply, from, all, done, Frames(c, b[offset..]), state);
          return state, false;
        case Ok(d) =>
          PlayNext(apply, from, all, done, Frames(c, b[offset..]), state);
          match apply(state, d.payload) {
            case None =>
              return state, false;
            case Some(s) =>
              state, offset, done := s, offset + d.size, done + [d.payload];
          }
      }
    }
    FramesAt(c, b, offset);
    PlayDone(apply, from, all, done, Frames(c, b[offset..]), state);
    return state, true;
  }

  method ReplayLines<S(!new)>(b: string, apply: (S, string) -> Option<S>, from: S) returns (state: S, ok: bool)
    ensures var run := Played(apply, from, Lines(b)); state == run.state && ok == run.ok
  {
    hide Played, Playing, TrimSpace;
    state := from;
    var rest := b;
    ghost var done, all := [], Delivery(Lines(b), true);
    PlayStart(apply, from, all);
    while rest != ""
      invariant Playing(apply, from, all, done, Delivery(Lines(rest), true), state)
      decreases |rest|
    {
      var n := LineEnd(rest);
      var line := TrimSpace(rest[..n]);
      var more := if n == |rest| then "" else rest[n + 1..];
      if line != "" {
        assert Lines(rest) == [line] + Lines(more);
        PlayNext(apply, from, all, done, Delivery(Lines(rest), true), state);
        match apply(state, line) {
          case None =>
            return state, false;
          case Some(s) =>
            state, done := s, done + [line];
        }
      } else {
        assert Lines(rest) == [] + Lines(more) == Lines(more);
      }
      rest := more;
    }
    PlayDone(apply, from, all, done, Delivery([], true), state);
    return state, true;
  }

  /** Replay succeeds exactly when every frame decodes and every record is taken; what was taken before
      the first failure stays. */
  method Replay<S(!new)>(c: Codec, b: string, apply: (S, string) -> Option<S>, from: S) returns (state: S, ok: bool)
    ensures var all := Contents(c, b); var run := Played(apply, from, all.sqls);
            state == run.state && (ok <==> all.ok && run.ok)
  {
    hide Frames, Lines, Played;
    if |b| >= 8 && b[..8] == MAGIC {
      state, ok := ReplayFrames(c, b, apply, from);
    } else {
      state, ok := ReplayLines(b, apply, from);
    }
  }

  // ------------------------------------------------------------ main results

  lemma StartsWithMagic(c: Codec, rs: seq<Record>)
    requires AllReadable(c, rs) && rs != []
    ensures |LogOf(c, rs)| >= 20 && LogOf(c, rs)[..8] == MAGIC
  {
    hide Frame;
    FrameParts(c, WAL, rs[0].version, |rs[0].sql|, Stored(c, WAL, rs[0].version, rs[0].sql), LogOf(c, rs[1..]));
  }

  /** A log cut at any byte from the eighth on: the records wholly before the cut are replayed, and the
      replay fails exactly when the cut is inside a record. */
  lemma ReplayOfCut(c: Codec, rs: seq<Record>, n: nat)
    requires AllReadable(c, rs) && Undoes(c) && 8 <= n <= |LogOf(c, rs)|
    ensures Contents(c, LogOf(c, rs)[..n]) == Delivery(Sqls(rs[..Whole(c, rs, n)]), OnBoundary(c, rs, n))
  {
    hide Frames, Whole, Undoes, OnBoundary;
    if rs != [] { StartsWithMagic(c, rs); }
    assert LogOf(c, rs)[..n][..8] == LogOf(c, rs)[..8];
    FramesOfCut(c, rs, n);
    BoundaryIff(c, rs, n);
  }

  /** Cut before the eighth byte, the log reads as an old line log: no bytes are no records, and a few
      are handed over as one statement without an error. */
  lemma ReplayOfStub(c: Codec, rs: seq<Record>, n: nat)
    requires AllReadable(c, rs) && rs != [] && n < 8
    ensures n < |LogOf(c, rs)|
    ensures Contents(c, LogOf(c, rs)[..n]) == Delivery(if n == 0 then [] else [MAGIC[..n]], true)
  {
    StartsWithMagic(c, rs);
    hide LogOf;
    var b := LogOf(c, rs)[..n];
    assert b == LogOf(c, rs)[..8][..n] == MAGIC[..n];
    if n > 0 {
      OneLine(b);
      assert !IsSpace(b[0]) && !IsSpace(b[n - 1]);
      TrimTrimmed(b);
    }
  }

  lemma {:induction false} LineEndAll(b: string)
    requires '\n' !in b
    ensures LineEnd(b) == |b|
  {
    if b != "" { LineEndAll(b[1..]); }
  }

  lemma OneLine(b: string)
    requires '\n' !in b && b != ""
    ensures Lines(b) == if TrimSpace(b) == "" then [] else [TrimSpace(b)]
  {
    hide TrimSpace;
    LineEndAll(b);
    assert b[..|b|] == b;
  }

  /** The file after any batches, all taken whole. */
  function Appended(c: Codec, batches: seq<seq<string>>): string
    requires forall i :: 0 <= i < |batches| ==> Small(batches[i])
  {
    if batches == [] then "" else Appended(c, batches[..|batches| - 1]) + Encoded(c, batches[|batches| - 1])
  }

  lemma {:induction false} AppendedIsLog(c: Codec, batches: seq<seq<string>>)
    requires forall i :: 0 <= i < |batches| ==> Small(batches[i])
    ensures Small(Flat(batches)) && Appended(c, batches) == Encoded(c, Flat(batches))
    decreases |batches|
  {
    hide LogOf;
    if batches == [] {
      NothingEncoded(c);
    } else {
      var n := |batches| - 1;
      AppendedIsLog(c, batches[..n]);
      EncodedConcat(c, Flat(batches[..n]), batches[n]);
    }
  }

  lemma EncodedConcat(c: Codec, a: seq<string>, b: seq<string>)
    requires Small(a) && Small(b)
    ensures Small(a + b) && Encoded(c, a + b) == Encoded(c, a) + Encoded(c, b)
  {
    hide LogOf;
    NewReadable(c, a);
    NewReadable(c, b);
    LogConcat(c, New(a), New(b));
    assert New(a + b) == New(a) + New(b);
  }

  /** Any appended batches replay as their concatenation. */
  lemma ReplayOfBatches(c: Codec, batches: seq<seq<string>>)
    requires Undoes(c) && forall i :: 0 <= i < |batches| ==> Small(batches[i])
    ensures Contents(c, Appended(c, batches)) == Delivery(Flat(batches), true)
  {
    hide Frames, Whole, Undoes, OnBoundary, Appended, Flat, LogOf;
    AppendedIsLog(c, batches);
    var all := Flat(batches);
    NewReadable(c, all);
    ReplayOfLog(c, New(all));
  }

  lemma ReplayOfLog(c: Codec, rs: seq<Record>)
    requires AllReadable(c, rs) && Undoes(c)
    ensures Contents(c, LogOf(c, rs)) == Delivery(Sqls(rs), true)
  {
    hide Frames, Whole, Undoes, OnBoundary;
    if rs != [] {
      var n := |LogOf(c, rs)|;
      StartsWithMagic(c, rs);
      assert LogOf(c, rs)[..n] == LogOf(c, rs) && rs[..|rs|] == rs;
      ReplayOfCut(c, rs, n);
      WholeIs(c, rs, n, |rs|);
      BoundaryIff(c, rs, n);
    }
  }

  /** A batch of which only part was written: every earlier batch and the records of this one that are
      wholly there are replayed, and the replay fails unless the tear is between two records. */
  lemma ReplayOfTornBatch(c: Codec, batches: seq<seq<string>>, last: seq<string>, taken: nat)
    requires Undoes(c) && Small(last) && forall i :: 0 <= i < |batches| ==> Small(batches[i])
    requires taken <= |Encoded(c, last)| && |Appended(c, batches)| + taken >= 8
    ensures AllReadable(c, New(last))
    ensures Contents(c, Appended(c, batches) + Torn(Encoded(c, last), taken))
            == Delivery(Flat(batches) + last[..Whole(c, New(last), taken)], OnBoundary(c, New(last), taken))
  {
    hide Frames, Whole, Undoes, OnBoundary, Appended, Flat, LogOf;
    AppendedIsLog(c, batches);
    var all := Flat(batches);
    NewReadable(c, all);
    NewReadable(c, last);
    NewReadable(c, all + last);
    EncodedConcat(c, all, last);
    assert New(all + last) == New(all) + New(last);
    var n := |Encoded(c, all)| + taken;
    assert Appended(c, batches) + Torn(Encoded(c, last), taken) == Encoded(c, all + last)[..n];
    ReplayOfCut(c, New(all + last), n);
    WholeConcat(c, New(all), New(last), taken);
    BoundaryIff(c, New(all + last), n);
    BoundaryIff(c, New(last), taken);
    var k := Whole(c, New(last), taken);
    assert New(all + last)[..|all| + k] == New(all) + New(last)[..k];
    LogConcat(c, New(all), New(last)[..k]);
    assert Sqls(New(all) + New(last)[..k]) == all + last[..k];
  }

  lemma {:induction false} WholeConcat(c: Codec, a: seq<Record>, b: seq<Record>, n: nat)
    requires AllReadable(c, a) && AllReadable(c, b)
    ensures AllReadable(c, a + b) && Whole(c, a + b, |LogOf(c, a)| + n) == |a| + Whole(c, b, n)
    decreases |a|
  {
    hide FrameOf, Readable;
    if a == [] {
      assert a + b == b;
    } else {
      assert (a + b)[0] == a[0] && (a + b)[1..] == a[1..] + b;
      WholeConcat(c, a[1..], b, n);
    }
  }

  // ----------------------------------------------------------------- damage

  /** A log record of version 3, with any checksum and any stored bytes. */
  function Forged(raw: Word, sum: Word, stored: string): (s: string)
    requires |stored| < 0x1_0000_0000
    ensures |s| == CHECKSUM_HEADER + |stored|
  {
    MAGIC + [WAL, Byte(3), Byte(0), Byte(0)] + PutWord(raw) + PutWord(|stored|) + PutWord(sum) + stored
  }

  lemma ForgedParts(raw: Word, sum: Word, stored: string, rest: string)
    requires |stored| < 0x1_0000_0000
    ensures var h := Forged(raw, sum, stored) + rest;
            && |h| == 24 + |stored| + |rest| && h[..8] == MAGIC && h[8] == WAL && h[9] == Byte(3)
            && h[12..16] == PutWord(raw) && h[16..20] == PutWord(|stored|) && h[..24][20..24] == PutWord(sum)
            && h[24..24 + |stored|] == stored
  {
    hide PutWord, Byte;
    var header := MAGIC + [WAL, Byte(3), Byte(0), Byte(0)] + PutWord(raw) + PutWord(|stored|);
    TailParts(header, PutWord(sum), stored, rest);
    HeaderParts(WAL, 3, raw, |stored|, PutWord(sum) + stored + rest);
  }

  /** It decodes exactly when the checksum is that of the stored bytes and the length is theirs. */
  lemma ForgedFrame(c: Codec, raw: Word, sum: Word, stored: string, rest: string)
    requires raw <= MAX_PAYLOAD && |stored| <= MAX_PAYLOAD
    ensures Decode(c, Forged(raw, sum, stored) + rest, WAL).Ok? <==> raw == |stored| && sum == c.crc(stored)
  {
    hide PutWord, GetWord, Forged;
    ForgedParts(raw, sum, stored, rest);
    WordRoundTrip(raw);
    WordRoundTrip(|stored|);
    WordRoundTrip(sum);
  }

  lemma ForgedIs(c: Codec, r: Record)
    requires Readable(c, r) && r.version == 3
    ensures BytesOf(c, r) == Forged(|r.sql|, c.crc(r.sql), r.sql)
  {
    hide PutWord;
  }

  /** After whole records comes something that does not decode. */
  lemma {:induction false} FramesUpTo(c: Codec, rs: seq<Record>, junk: string)
    requires AllReadable(c, rs) && Undoes(c) && junk != "" && Decode(c, junk, WAL).Err?
    ensures Frames(c, LogOf(c, rs) + junk) == Delivery(Sqls(rs), false)
    decreases |rs|
  {
    hide Decode, FrameOf, Undoes, Fits;
    if rs == [] {
      assert LogOf(c, rs) + junk == junk;
    } else {
      var f, tail := BytesOf(c, rs[0]), LogOf(c, rs[1..]) + junk;
      assert LogOf(c, rs) + junk == f + tail;
      FrameRoundTrip(c, WAL, rs[0].version, rs[0].sql, tail);
      assert (f + tail)[|f|..] == tail;
      FramesUpTo(c, rs[1..], junk);
      assert Sqls(rs) == [rs[0].sql] + Sqls(rs[1..]);
    }
  }

  /** Where record `k` of a log starts. */
  function Start(c: Codec, rs: seq<Record>, k: nat): nat
    requires AllReadable(c, rs) && k <= |rs|
  {
    |LogOf(c, rs[..k])|
  }

  /** `part` written over the bytes of a file from `at` on. */
  function Overwritten(file: string, at: nat, part: string): string
    requires at + |part| <= |file|
  {
    file[..at] + part + file[at + |part|..]
  }

  lemma LogAround(c: Codec, rs: seq<Record>, k: nat)
    requires AllReadable(c, rs) && k < |rs|
    ensures AllReadable(c, rs[..k]) && AllReadable(c, rs[k + 1..])
    ensures LogOf(c, rs) == LogOf(c, rs[..k]) + BytesOf(c, rs[k]) + LogOf(c, rs[k + 1..])
  {
    hide FrameOf, Readable;
    assert rs == rs[..k] + rs[k..] && rs[k..][1..] == rs[k + 1..];
    LogConcat(c, rs[..k], rs[k..]);
    var a, b, d := LogOf(c, rs[..k]), BytesOf(c, rs[k]), LogOf(c, rs[k + 1..]);
    assert a + (b + d) == a + b + d;
  }

  /** Overwriting the checksum and the stored bytes of a record gives a forged record in its place. */
  lemma OverwrittenIs(a: string, raw: Word, sum: Word, stored: string, d: string, now: Word, bad: string)
    requires |stored| < 0x1_0000_0000 && |bad| == |stored|
    ensures var file, at := a + Forged(raw, sum, stored) + d, |a| + HEADER;
            && at + 4 + |bad| <= |file|
            && Overwritten(file, at, PutWord(now) + bad) == a + Forged(raw, now, bad) + d
  {
    hide PutWord;
    var head := MAGIC + [WAL, Byte(3), Byte(0), Byte(0)] + PutWord(raw) + PutWord(|stored|);
    var file, at, part := a + Forged(raw, sum, stored) + d, |a| + HEADER, PutWord(now) + bad;
    assert Forged(raw, sum, stored) == head + (PutWord(sum) + stored) && Forged(raw, now, bad) == head + part;
    assert file == (a + head) + (PutWord(sum) + stored) + d;
    assert file[..at] == a + head && file[at + |part|..] == d;
    assert (a + head) + part + d == a + (head + part) + d;
  }

  lemma BeginsWithMagic(c: Codec, rs: seq<Record>, raw: Word, sum: Word, stored: string, rest: string)
    requires AllReadable(c, rs) && |stored| < 0x1_0000_0000
    ensures var b := LogOf(c, rs) + Forged(raw, sum, stored) + rest;
            |b| >= 8 && b[..8] == MAGIC
  {
    var f := Forged(raw, sum, stored);
    if rs == [] {
      assert f[..8] == MAGIC;
      assert (LogOf(c, rs) + f + rest)[..8] == f[..8];
    } else {
      StartsWithMagic(c, rs);
      hide LogOf, Forged;
      assert (LogOf(c, rs) + f + rest)[..8] == LogOf(c, rs)[..8];
    }
  }

  /** A log in which the checksum and the stored bytes of one record were overwritten: if the checksum is not
      that of the bytes, the records before it are replayed and then the replay fails; if it is, the bytes
      are replayed for the record. */
  lemma ReplayOfDamage(c: Codec, rs: seq<Record>, k: nat, sum: Word, bad: string)
    requires AllReadable(c, rs) && Undoes(c) && k < |rs| && rs[k].version == 3 && |bad| == |rs[k].sql|
    ensures var file, at := LogOf(c, rs), Start(c, rs, k) + HEADER;
            && at + 4 + |bad| <= |file|
            && Contents(c, Overwritten(file, at, PutWord(sum) + bad))
               == if sum == c.crc(bad) then Delivery(Sqls(rs[k := Record(3, bad)]), true)
                  else Delivery(Sqls(rs[..k]), false)
  {
    hide Frames, LogOf, Undoes, PutWord, Forged, Overwritten, Decode;
    var r := rs[k];
    assert Readable(c, r);
    LogAround(c, rs, k);
    ForgedIs(c, r);
    var a, d := LogOf(c, rs[..k]), LogOf(c, rs[k + 1..]);
    OverwrittenIs(a, |r.sql|, c.crc(r.sql), r.sql, d, sum, bad);
    var f := Forged(|r.sql|, sum, bad);
    if sum == c.crc(bad) {
      var other := rs[k := Record(3, bad)];
      assert AllReadable(c, other) && other[..k] == rs[..k] && other[k + 1..] == rs[k + 1..];
      LogAround(c, other, k);
      ForgedIs(c, other[k]);
      ReplayOfLog(c, other);
    } else {
      ForgedFrame(c, |r.sql|, sum, bad, d);
      BeginsWithMagic(c, rs[..k], |r.sql|, sum, bad, d);
      FramesUpTo(c, rs[..k], f + d);
      assert a + (f + d) == a + f + d;
    }
  }

  // ------------------------------------------------------------ only frames

  predicate Bytes(s: string) { forall i :: 0 <= i < |s| ==> s[i] as int < 256 }

  lemma Parts256(n: nat, q: nat, r: nat)
    requires n == 256 * q + r && r < 256
    ensures n / 256 == q && n % 256 == r
  {
  }

  lemma Shifts(n: nat)
    ensures n / 0x1_0000 == n / 256 / 256 && n / 0x100_0000 == n / 256 / 256 / 256
  {
  }

  lemma WordBack(s: string)
    requires |s| == 4 && Bytes(s)
    ensures GetWord(s) < 0x1_0000_0000 && PutWord(GetWord(s)) == s
  {
    var n, a, b, d, e := GetWord(s), s[0] as int, s[1] as int, s[2] as int, s[3] as int;
    Shifts(n);
    Parts256(n, 0x1_0000 * a + 0x100 * b + d, e);
    Parts256(0x1_0000 * a + 0x100 * b + d, 0x100 * a + b, d);
    Parts256(0x100 * a + b, a, b);
    Parts256(a, 0, a);
  }

  /** What decodes is a frame: byte for byte, but for the two reserved bytes, what a writer makes of some
      stored form of the payload. */
  lemma OnlyFrames(c: Codec, h: string, kind: char) returns (version: nat, stored: string)
    requires Decode(c, h, kind).Ok? && Bytes(h) && h[10] == h[11] == Byte(0)
    ensures version in {1, 3} || (version == 2 && kind == WAL)
    ensures |stored| <= MAX_PAYLOAD
    ensures var d := Decode(c, h, kind).value;
            && |d.payload| <= MAX_PAYLOAD && d.size <= |h|
            && h[..d.size] == Frame(c, kind, version, |d.payload|, stored)
            && (if kind == WAL && version >= 2 then stored == d.payload
                else c.inflate(stored, |d.payload| + 1) == Some(d.payload))
  {
    hide PutWord, GetWord;
    version := h[9] as int;
    var size, raw, n := HeaderSize(version), GetWord(h[12..16]), GetWord(h[16..20]);
    stored := h[size..size + n];
    WordBack(h[12..16]);
    WordBack(h[16..20]);
    if version == 3 {
      WordBack(h[20..24]);
      assert h[..size][20..24] == h[20..24];
    }
    assert size + n <= |h| && Decode(c, h, kind) == Unpack(c, kind, version, h[..size], raw, stored);
    FramePieces(h, size + n, version);
    assert PutWord(raw) == h[12..16] && PutWord(|stored|) == h[16..20];
  }

  /** The pieces of the first `n` bytes. */
  lemma FramePieces(h: string, n: nat, version: nat)
    requires HeaderSize(version) <= n <= |h| && version < 256 && h[9] as int == version
    ensures var sum := if version == 3 then h[20..24] else "";
            h[..n] == h[..8] + [h[8], Byte(version), h[10], h[11]] + h[12..16] + h[16..20] + sum
                      + h[HeaderSize(version)..n]
  {
    var size := HeaderSize(version);
    assert h[..20] == h[..8] + [h[8], h[9], h[10], h[11]] + h[12..16] + h[16..20];
    assert h[..n] == h[..20] + h[20..size] + h[size..n];
  }

  // -------------------------------------------------------------- line logs

  /** A log from before framing: statements and blank lines, each ended by a line break. */
  function LineLog(lines: seq<string>): string {
    if lines == [] then "" else lines[0] + "\n" + LineLog(lines[1..])
  }

  /** The statements among the lines: what is left of each without the white space around it, if anything. */
  function Statements(lines: seq<string>): seq<string> {
    if lines == [] then []
    else (if TrimSpace(lines[0]) == "" then [] else [TrimSpace(lines[0])]) + Statements(lines[1..])
  }

  lemma {:induction false} LineEndIs(line: string, rest: string)
    requires '\n' !in line
    ensures LineEnd(line + "\n" + rest) == |line|
    decreases |line|
  {
    var b := line + "\n" + rest;
    if line != "" {
      assert b[0] == line[0] && line[0] in line && b[1..] == line[1..] + "\n" + rest;
      LineEndIs(line[1..], rest);
    }
  }

  /** Such a log, with or without a break after its last line, replays exactly its statements in order. */
  lemma {:induction false} LinesRoundTrip(lines: seq<string>, last: string)
    requires '\n' !in last && forall i :: 0 <= i < |lines| ==> '\n' !in lines[i]
    ensures Lines(LineLog(lines) + last) == Statements(lines + [last])
    decreases |lines|
  {
    hide TrimSpace;
    if lines == [] {
      assert LineLog(lines) + last == last && lines + [last] == [last] && [last][1..] == [];
      if last == "" {
        assert TrimSpace("") == "" by { TrimNothing(); }
      } else {
        OneLine(last);
      }
    } else {
      var b, rest := LineLog(lines) + last, LineLog(lines[1..]) + last;
      assert b == lines[0] + "\n" + rest;
      LineEndIs(lines[0], rest);
      assert b[..|lines[0]|] == lines[0] && b[|lines[0]| + 1..] == rest;
      LinesRoundTrip(lines[1..], last);
      assert (lines + [last])[1..] == lines[1..] + [last];
    }
  }

  lemma TrimNothing()
    ensures TrimSpace("") == ""
  {
  }
}
