/** The ring buffer of syslog entries: variable-length records in a byte array, an end
    marker where the tail of the buffer is given up, and a reader that walks it in at
    most two passes. The specification is the sequence of entries still held. */
module Syslog {
  import opened Collections

  type byte = x: int | 0 <= x < 256

  /** `sizeof(int) + sizeof(struct timeval)`. */
  const STAMP := 16
  const HEADER := 20
  const INT_LIMIT := 0x8000_0000

  /** One message: its time stamp as stored, and its formatted text. */
  datatype Entry = Entry(stamp: seq<byte>, text: seq<byte>) {
    ghost predicate Proper() {
      |stamp| == STAMP && 0 !in text && |text| + HEADER + 1 < INT_LIMIT
    }

    /** The length of the record, with header and terminator. */
    function Length(): nat {
      |text| + 1 + HEADER
    }
  }

  // ----- records

  /** `htonl`, stored. */
  function BigEndian(n: nat): (s: seq<byte>)
    ensures |s| == 4
  {
    [n / 0x100_0000 % 256, n / 0x1_0000 % 256, n / 0x100 % 256, n % 256]
  }

  function FromDigits(a: nat, b: nat, c: nat, d: nat): nat {
    0x100_0000 * a + 0x1_0000 * b + 0x100 * c + d
  }

  /** `ntohl` of a stored integer. */
  function FromBigEndian(s: seq<byte>): nat
    requires |s| == 4
  {
    FromDigits(s[0], s[1], s[2], s[3])
  }

  lemma BigEndianRoundTrip(n: nat)
    requires n < 0x1_0000_0000
    ensures FromBigEndian(BigEndian(n)) == n
  {
    var s := BigEndian(n);
    Base256(n);
    assert s[0] == n / 0x100_0000 % 256 && s[1] == n / 0x1_0000 % 256 && s[2] == n / 0x100 % 256 && s[3] == n % 256;
  }

  lemma Base256(n: nat)
    requires n < 0x1_0000_0000
    ensures FromDigits(n / 0x100_0000 % 256, n / 0x1_0000 % 256, n / 0x100 % 256, n % 256) == n
  {
    DividedTwice(n);
    Quotient(n);
    Quotient(n / 0x100);
    Quotient(n / 0x100 / 0x100);
    assert n / 0x100_0000 % 256 == n / 0x100_0000;
  }

  lemma DividedTwice(n: nat)
    ensures n / 0x1_0000 == n / 0x100 / 0x100 && n / 0x100_0000 == n / 0x100 / 0x100 / 0x100
  {
  }

  lemma Quotient(n: nat)
    ensures n == 0x100 * (n / 0x100) + n % 256
  {
  }

  function Header(e: Entry): seq<byte> {
    BigEndian(e.Length()) + e.stamp
  }

  function Record(e: Entry): seq<byte> {
    Header(e) + e.text + [0]
  }

  /** What `vsnprintf` stores of a text in a space that is not empty. */
  function Printed(text: seq<byte>, available: nat): seq<byte>
    requires available > 0
  {
    text[..if |text| < available then |text| else available - 1] + [0]
  }

  /** What is stored of an entry whose text fills the space behind the header: the
      terminator takes the place of the last character. */
  function CutRecord(e: Entry): seq<byte> {
    Header(e) + if e.text == [] then [] else e.text[..|e.text| - 1] + [0]
  }

  lemma PrintedRecord(e: Entry, available: nat)
    requires e.Proper()
    ensures available > 0 ==> |Printed(e.text, available)| <= available
    ensures |e.text| < available ==> |Printed(e.text, available)| == |e.text| + 1
    ensures |e.text| < available ==> Header(e) + Printed(e.text, available) == Record(e)
    ensures |e.text| == available
      ==> CutRecord(e) == Header(e) + if available == 0 then [] else Printed(e.text, available)
    ensures |e.text| == available > 0 ==> |Printed(e.text, available)| == available
    ensures |Record(e)| == e.Length() && |Header(e)| == HEADER
  {
    assert e.text[..|e.text|] == e.text;
    if |e.text| < available {
      assert Header(e) + (e.text + [0]) == Record(e);
    }
  }

  function Records(es: seq<Entry>): seq<byte> {
    if es == [] then [] else Record(es[0]) + Records(es[1..])
  }

  ghost predicate AllProper(es: seq<Entry>) {
    forall e :: e in es ==> e.Proper()
  }

  lemma {:induction false} RecordsAppend(a: seq<Entry>, b: seq<Entry>)
    ensures Records(a + b) == Records(a) + Records(b)
  {
    hide Record;
    if a == [] {
      assert a + b == b;
    } else {
      assert (a + b)[0] == a[0] && (a + b)[1..] == a[1..] + b;
      RecordsAppend(a[1..], b);
    }
  }

  lemma RecordsOne(e: Entry)
    ensures Records([e]) == Record(e)
  {
    assert Records([e]) == Record(e) + Records([]);
  }

  /** The fields of a record found in a buffer. */
  lemma RecordFields(s: seq<byte>, at: nat, e: Entry)
    requires e.Proper() && at + |Record(e)| <= |s| && s[at..at + |Record(e)|] == Record(e)
    ensures |Record(e)| == e.Length()
    ensures FromBigEndian(s[at..at + 4]) == e.Length()
    ensures s[at + 4..at + HEADER] == e.stamp
    ensures s[at + HEADER..at + HEADER + |e.text|] == e.text && s[at + HEADER + |e.text|] == 0
  {
    var r := Record(e);
    var t := s[at..at + |r|];
    BigEndianRoundTrip(e.Length());
    SliceOfSlice(s, at, at + |r|, 0, 4);
    SliceOfSlice(s, at, at + |r|, 4, HEADER);
    SliceOfSlice(s, at, at + |r|, HEADER, HEADER + |e.text|);
    assert t[0..4] == BigEndian(e.Length()) && t[4..HEADER] == e.stamp;
    assert t[HEADER..HEADER + |e.text|] == e.text && t[HEADER + |e.text|] == 0;
  }

  // ----- the specification

  /** How many of the oldest entries are cleared to make a gap long enough. */
  function Cleared(older: seq<Entry>, gap: int, length: nat): (k: nat)
    ensures k <= |older|
  {
    if gap >= length || older == [] then 0
    else 1 + Cleared(older[1..], gap + older[0].Length(), length)
  }

  function Max(a: int, b: int): int { if a > b then a else b }

  /** What `iw_syslog_write_entry` returns for a text and the space it is given. */
  function EntryResult(length: nat, room: int): int {
    if length > Max(0, room - HEADER) then -(length + 1 + HEADER) else length + 1 + HEADER
  }

  /** It claims to have stored more than there was room for exactly when the text leaves
      no room for its terminator. */
  lemma EntryOverrunsExactly(length: nat, room: nat)
    ensures EntryResult(length, room) > room <==> length == Max(0, room - HEADER)
  {
  }

  /** The whole text and a terminator fit into `free` bytes. */
  predicate Fits(e: Entry, free: int) {
    |e.text| < Max(0, free - HEADER)
  }

  /** The entries held after old ones made way for `e`. */
  ghost function AfterClearing(older: seq<Entry>, newer: seq<Entry>, gap: int, size: nat, e: Entry): seq<Entry> {
    if |Records(newer)| + e.Length() > size then newer[Cleared(newer, 0, e.Length())..] + [e]
    else older[Cleared(older, gap, e.Length())..] + newer + [e]
  }

  /** The entries held after adding `e` to `older` (from `readPos` on, if it is not 0)
      and `newer` (from the start on) in a buffer of `size` bytes. */
  ghost function Next(older: seq<Entry>, newer: seq<Entry>, readPos: nat, size: nat, e: Entry): seq<Entry> {
    var writePos := |Records(newer)|;
    if Fits(e, (if readPos == 0 then size else readPos) - writePos) then older + newer + [e]
    else if e.Length() >= size then older + newer
    else AfterClearing(older, newer, readPos - writePos, size, e)
  }

  ghost predicate IsSuffix(s: seq<Entry>, t: seq<Entry>) {
    |s| <= |t| && s == t[|t| - |s|..]
  }

  lemma DropsOldest(older: seq<Entry>, newer: seq<Entry>, e: Entry, k: nat, j: nat)
    requires k <= |newer| && j <= |older|
    ensures IsSuffix(newer[k..] + [e], older + newer + [e])
    ensures IsSuffix(older[j..] + newer + [e], older + newer + [e])
    ensures IsSuffix(older + newer + [e], older + newer + [e])
  {
    var all := older + newer + [e];
    assert newer[k..] + [e] == all[|older| + k..];
    assert older[j..] + newer + [e] == all[j..];
  }

  /** A message that fits into an empty buffer, or into the space left, is taken and
      becomes the newest; others change nothing. Only the oldest entries are given up. */
  lemma NextIsSuffix(older: seq<Entry>, newer: seq<Entry>, readPos: nat, size: nat, e: Entry)
    ensures
      var next := Next(older, newer, readPos, size, e);
      var free := (if readPos == 0 then size else readPos) - |Records(newer)|;
      if e.Length() < size || Fits(e, free)
      then IsSuffix(next, older + newer + [e]) && next != [] && next[|next| - 1] == e
      else next == older + newer
  {
    hide Records, Cleared;
    DropsOldest(older, newer, e, Cleared(newer, 0, e.Length()),
                Cleared(older, readPos - |Records(newer)|, e.Length()));
  }

  // ----- how many are given up

  /** `k` is the least number of oldest entries that make the gap long enough, or all of them. */
  ghost predicate Least(es: seq<Entry>, gap: int, length: nat, k: nat) {
    && k <= |es|
    && (k > 0 ==> gap + |Records(es[..k - 1])| < length)
    && (k < |es| ==> gap + |Records(es[..k])| >= length)
  }

  lemma {:induction false} ClearedIsLeast(es: seq<Entry>, gap: int, length: nat)
    requires AllProper(es)
    ensures Least(es, gap, length, Cleared(es, gap, length))
  {
    hide Record;
    assert es[..0] == [];
    if gap < length && es != [] {
      assert es[0].Proper();
      RecordLength(es[0]);
      var n, tail := es[0].Length(), es[1..];
      ClearedIsLeast(tail, gap + n, length);
      var k := Cleared(tail, gap + n, length);
      RecordsOfFirst(es, k);
      if k > 0 {
        RecordsOfFirst(es, k - 1);
      }
    }
  }

  lemma RecordLength(e: Entry)
    requires e.Proper()
    ensures |Record(e)| == e.Length()
  {
  }

  lemma RecordsOfFirst(es: seq<Entry>, k: nat)
    requires k < |es|
    ensures |Records(es[..k + 1])| == |Record(es[0])| + |Records(es[1..][..k])|
  {
    assert es[..k + 1] == [es[0]] + es[1..][..k];
    assert es[..k + 1][1..] == es[1..][..k];
  }

  /** Nothing is given up without need. A message that fits is added; one as long as the
      buffer changes nothing; otherwise, where the space up to the end of the buffer is long
      enough, the oldest of the older entries make way one by one. Where it is not, all of
      those do, and then the oldest of the newer ones one by one. */
  ghost predicate GivesUpLeast(
    older: seq<Entry>, newer: seq<Entry>, readPos: nat, size: nat, e: Entry, held: seq<Entry>)
  {
    var used, n := |Records(newer)|, |Record(e)|;
    if |e.text| + HEADER < (if readPos == 0 then size else readPos) - used then held == older + newer + [e]
    else if n >= size then held == older + newer
    else if used + n <= size then
      exists k: nat :: Least(older, readPos - used, n, k) && held == older[k..] + newer + [e]
    else
      exists k: nat :: Least(newer, 0, n, k) && held == newer[k..] + [e]
  }

  lemma NextGivesUpLeast(older: seq<Entry>, newer: seq<Entry>, readPos: nat, size: nat, e: Entry)
    requires AllProper(older) && AllProper(newer) && e.Proper()
    ensures GivesUpLeast(older, newer, readPos, size, e, Next(older, newer, readPos, size, e))
  {
    hide Records, Record, Cleared, AllProper, Least;
    RecordLength(e);
    ClearedIsLeast(newer, 0, e.Length());
    ClearedIsLeast(older, readPos - |Records(newer)|, e.Length());
  }

  // ----- the representation

  ghost predicate Held(s: seq<byte>, at: nat, es: seq<Entry>) {
    at + |Records(es)| <= |s| && s[at..at + |Records(es)|] == Records(es)
  }

  /** No record starts at `at`: too few bytes are left for a length, or it is zero. */
  ghost predicate Marked(s: seq<byte>, at: nat) {
    at + 4 <= |s| ==> s[at..at + 4] == [0, 0, 0, 0]
  }

  lemma HeldFrame(s: seq<byte>, s': seq<byte>, at: nat, es: seq<Entry>)
    requires Held(s, at, es) && |s'| == |s|
    requires forall k :: at <= k < at + |Records(es)| ==> s'[k] == s[k]
    ensures Held(s', at, es)
  {
    assert s'[at..at + |Records(es)|] == s[at..at + |Records(es)|];
  }

  lemma HeldMore(s: seq<byte>, at: nat, es: seq<Entry>, e: Entry)
    requires Held(s, at, es)
    requires at + |Records(es)| + |Record(e)| <= |s|
    requires s[at + |Records(es)|..at + |Records(es)| + |Record(e)|] == Record(e)
    ensures Held(s, at, es + [e]) && |Records(es + [e])| == |Records(es)| + |Record(e)|
  {
    hide Records, Record;
    RecordsAppend(es, [e]);
    RecordsOne(e);
    var mid, end := at + |Records(es)|, at + |Records(es)| + |Record(e)|;
    assert s[at..end] == s[at..mid] + s[mid..end];
  }

  lemma RecordsFirst(es: seq<Entry>)
    requires es != []
    ensures Records(es) == Record(es[0]) + Records(es[1..])
  {
  }

  lemma SplitSlice<T>(s: seq<T>, at: nat, a: seq<T>, b: seq<T>)
    requires at + |a + b| <= |s| && s[at..at + |a + b|] == a + b
    ensures s[at..at + |a|] == a && s[at + |a|..at + |a| + |b|] == b
  {
    SliceOfSlice(s, at, at + |a + b|, 0, |a|);
    SliceOfSlice(s, at, at + |a + b|, |a|, |a + b|);
    assert (a + b)[0..|a|] == a && (a + b)[|a|..|a + b|] == b;
  }

  /** The oldest of the records held at a position, and the rest behind it. */
  lemma HeldFirst(s: seq<byte>, at: nat, es: seq<Entry>)
    requires es != [] && Held(s, at, es) && AllProper(es)
    ensures
      var n := es[0].Length();
      && |Record(es[0])| == n && at + n <= |s| && s[at..at + n] == Record(es[0])
      && FromBigEndian(s[at..at + 4]) == n
      && Held(s, at + n, es[1..]) && at + |Records(es)| == at + n + |Records(es[1..])|
  {
    hide Records, Record;
    RecordsFirst(es);
    SplitSlice(s, at, Record(es[0]), Records(es[1..]));
    assert es[0].Proper();
    RecordFields(s, at, es[0]);
  }

  /** Records from `at` on, and a mark behind the last one. */
  ghost predicate Chain(s: seq<byte>, at: nat, es: seq<Entry>) {
    AllProper(es) && Held(s, at, es) && Marked(s, at + |Records(es)|)
  }

  /** What the length found at the start of a chain says. */
  lemma ChainStep(s: seq<byte>, at: nat, es: seq<Entry>)
    requires Chain(s, at, es)
    ensures if es == [] then at + 4 <= |s| ==> FromBigEndian(s[at..at + 4]) == 0
            else
              var n := es[0].Length();
              at + n <= |s| && FromBigEndian(s[at..at + 4]) == n && Chain(s, at + n, es[1..])
  {
    hide Record;
    if es != [] {
      HeldFirst(s, at, es);
    }
  }

  lemma ChainFrame(s: seq<byte>, s': seq<byte>, at: nat, es: seq<Entry>)
    requires Chain(s, at, es) && |s'| == |s|
    requires forall k :: at <= k < |s| ==> s'[k] == s[k]
    ensures Chain(s', at, es)
  {
    hide Records;
    HeldFrame(s, s', at, es);
    MarkFrame(s, s', at + |Records(es)|);
  }

  /** The module's state: `older` lies from the read position on and ends at a mark;
      `newer` lies before the write position. A read position of 0 means that there is
      only the newer part. */
  class Buffer {
    var buf: array<byte>
    var readPos: nat
    var writePos: nat
    var firstMsg: bool
    ghost var older: seq<Entry>
    ghost var newer: seq<Entry>
    ghost var accepted: seq<Entry>  // every message taken since the buffer was empty

    ghost predicate Valid()
      reads this, buf
    {
      Placed() && IsSuffix(Entries(), accepted)
    }

    ghost predicate Placed()
      reads `buf, `readPos, `writePos, `firstMsg, `older, `newer, buf
    {
      && 0 < buf.Length && PartsValid()
      && (firstMsg <==> newer == [])
      && (firstMsg ==> readPos == 0 && Marked(buf[..], 0))
    }

    /** The two parts are where they should be. */
    ghost predicate PartsValid()
      reads `buf, `readPos, `writePos, `older, `newer, buf
    {
      && buf.Length < INT_LIMIT && NewerValid()
      && (if readPos == 0 then older == [] else OlderValid())
    }

    ghost predicate NewerValid()
      reads `buf, `writePos, `newer, buf
    {
      AllProper(newer) && Held(buf[..], 0, newer) && writePos == |Records(newer)|
    }

    ghost predicate OlderValid()
      reads `buf, `readPos, `writePos, `older, buf
    {
      writePos <= readPos && Chain(buf[..], readPos, older)
    }

    /** The messages held, oldest first. */
    ghost function Entries(): seq<Entry>
      reads `older, `newer
    {
      older + newer
    }

    /** The bytes available to the first attempt at storing a message. */
    function Free(): int
      reads this, buf
    {
      if writePos > readPos || firstMsg then buf.Length - writePos else readPos - writePos
    }

    /** `iw_syslog_reinit`. */
    constructor (size: nat)
      requires size < INT_LIMIT
      ensures Valid() && fresh(buf) && Entries() == accepted == []
      ensures buf.Length == if size == 0 then 10000 else size
    {
      buf := new byte[if size == 0 then 10000 else size](_ => 0);
      readPos, writePos, firstMsg := 0, 0, true;
      older, newer, accepted := [], [], [];
    }

    /** `iw_syslog_clear`. */
    method Clear()
      requires Valid()
      modifies this, buf
      ensures Valid() && buf == old(buf) && Entries() == accepted == []
    {
      readPos, writePos, firstMsg := 0, 0, true;
      older, newer, accepted := [], [], [];
      Fill(0, buf.Length);
    }

    /** `memset` to zero. */
    method Fill(from: nat, count: nat)
      requires from + count <= buf.Length
      modifies buf
      ensures forall k :: 0 <= k < buf.Length ==> buf[k] == if from <= k < from + count then 0 else old(buf[k])
    {
      var i := 0;
      while i < count
        invariant 0 <= i <= count
        invariant forall k :: 0 <= k < buf.Length ==> buf[k] == if from <= k < from + i then 0 else old(buf[k])
      {
        buf[from + i] := 0;
        i := i + 1;
      }
    }

    method Store(from: nat, s: seq<byte>)
      requires from + |s| <= buf.Length
      modifies buf
      ensures forall k :: 0 <= k < buf.Length ==>
                buf[k] == if from <= k < from + |s| then s[k - from] else old(buf[k])
    {
      var i := 0;
      while i < |s|
        invariant 0 <= i <= |s|
        invariant forall k :: 0 <= k < buf.Length ==>
                    buf[k] == if from <= k < from + i then s[k - from] else old(buf[k])
      {
        buf[from + i] := s[i];
        i := i + 1;
      }
    }

    /** `iw_syslog_write_entry`: stores what fits of the text with a terminator, and the
        header if the text is no longer than the space behind it. A text that leaves no
        room for its terminator loses its last character to it, and the length stored and
        returned is one more than the space. Without space for a header the text is not
        empty: an empty one would be stored beyond the space. */
    method WriteEntry(start: nat, room: nat, e: Entry) returns (length: int)
      requires start + room <= buf.Length && e.Proper()
      requires room >= HEADER || e.text != []
      modifies this`firstMsg, buf
      ensures length == EntryResult(|e.text|, room)
      ensures firstMsg == (old(firstMsg) && length <= 0)
      ensures 0 < length <= room ==> length == |Record(e)| && buf[start..start + length] == Record(e)
      ensures length > room ==> room >= HEADER && length == room + 1 && buf[start..start + room] == CutRecord(e)
      ensures forall k :: 0 <= k < buf.Length && !(start <= k < start + room) ==> buf[k] == old(buf[k])
      ensures length <= 0 ==> forall k :: start <= k < start + HEADER && k < buf.Length ==> buf[k] == old(buf[k])
    {
      hide Header, Printed, Record, CutRecord;
      PrintedRecord(e, Max(0, room - HEADER));
      var available := Max(0, room - HEADER);
      if available > 0 {
        PrintText(start + HEADER, available, e.text);
      }
      if |e.text| > available {
        return -(|e.text| + 1 + HEADER);
      }
      firstMsg := false;
      length := |e.text| + 1 + HEADER;
      ghost var body := if available == 0 then [] else Printed(e.text, available);
      WriteHeader(start, e, body);
    }

    /** `vsnprintf` into a space that is not empty. */
    method PrintText(start: nat, available: nat, text: seq<byte>)
      requires 0 < available && start + available <= buf.Length
      modifies buf
      ensures |Printed(text, available)| <= available
      ensures buf[start..start + |Printed(text, available)|] == Printed(text, available)
      ensures forall k :: 0 <= k < buf.Length && !(start <= k < start + available) ==> buf[k] == old(buf[k])
    {
      Store(start, Printed(text, available));
    }

    /** The length and the time stamp go before the text. */
    method WriteHeader(start: nat, e: Entry, ghost body: seq<byte>)
      requires e.Proper() && start + HEADER + |body| <= buf.Length
      requires buf[start + HEADER..start + HEADER + |body|] == body
      modifies buf
      ensures |Header(e)| == HEADER && buf[start..start + HEADER + |body|] == Header(e) + body
      ensures forall k :: 0 <= k < buf.Length && !(start <= k < start + HEADER) ==> buf[k] == old(buf[k])
    {
      ghost var end := start + HEADER + |body|;
      Store(start, BigEndian(e.Length()) + e.stamp);
      assert buf[start..start + HEADER] == Header(e);
      assert buf[start + HEADER..end] == body;
      assert buf[start..end] == buf[start..start + HEADER] + buf[start + HEADER..end];
    }

    /** A message one byte too long for an empty buffer is taken as if it fitted. */
    static method Overrun() returns (buffer: Buffer, length: int)
      ensures fresh(buffer) && buffer.buf.Length == 25
      ensures length == 26 && buffer.buf[..] == [0, 0, 0, 26] + seq(16, i => 7) + [72, 101, 108, 108, 0]
    {
      buffer := new Buffer(25);
      var stamp: seq<byte> := seq(16, i => 7);
      var hello: seq<byte> := [72, 101, 108, 108, 111];
      length := buffer.WriteEntry(0, 25, Entry(stamp, hello));
      hide CutRecord;
      CutHello(stamp);
      assert buffer.buf[..] == buffer.buf[0..25];
    }

    /** Of four messages of nine characters in a buffer of 100 bytes the first makes way. */
    static method FourMessages(a: Entry, b: Entry, c: Entry, d: Entry) returns (buffer: Buffer)
      requires a.Proper() && b.Proper() && c.Proper() && d.Proper()
      requires |a.text| == |b.text| == |c.text| == |d.text| == 9
      ensures fresh(buffer) && buffer.buf.Length == 100 && buffer.Entries() == [b, c, d]
    {
      hide Next, Record, Records, IsSuffix, AllProper, Held, GivesUpLeast, Buffer.Placed, Buffer.Free;
      buffer := new Buffer(100);
      ThreeRecords(a, b, c);
      buffer.AtStart();
      buffer.FreeIsGap();
      buffer.Add(a);
      assert [] + [a] == [a];
      buffer.FreeIsGap();
      buffer.Add(b);
      assert [a] + [b] == [a, b];
      buffer.FreeIsGap();
      buffer.Add(c);
      assert [a, b] + [c] == [a, b, c];
      buffer.FreeIsGap();
      buffer.Add(d);
      OnlyFirst(a, b, c, d, buffer.Entries());
    }

    /** The loop of `iw_syslog_add` that clears old messages until a gap of `length` bytes
        lies after the write position, or none are left. */
    method ClearOld(length: nat)
      requires 0 < length && OlderValid()
      modifies `readPos, `older
      ensures older == old(older)[Cleared(old(older), old(readPos) - writePos, length)..]
      ensures if readPos == 0 then older == [] else OlderValid() && readPos - writePos >= length
    {
      hide Chain, Cleared;
      ghost var start, all, k := readPos, older, 0;
      ghost var s := buf[..];
      assert all[0..] == all;
      while readPos - writePos < length
        invariant k <= |all| && older == all[k..] && writePos <= readPos && Chain(s, readPos, older)
        invariant Cleared(all, start - writePos, length) == k + Cleared(older, readPos - writePos, length)
        decreases |older|
      {
        ChainStep(s, readPos, older);
        ClearedStep(older, readPos - writePos, length);
        if readPos + 4 > buf.Length {
          readPos := 0;
          return;
        }
        assert buf[readPos..readPos + 4] == s[readPos..readPos + 4];
        var msgLength := FromBigEndian(buf[readPos..readPos + 4]);
        if msgLength == 0 {
          readPos := 0;
          return;
        }
        if readPos + msgLength > buf.Length {
          assert false;
        }
        readPos := readPos + msgLength;
        older, k := older[1..], k + 1;
      }
      ClearedStep(older, readPos - writePos, length);
    }

    /** One attempt of `iw_syslog_add` at storing a message at the write position. */
    method Attempt(e: Entry, room: nat) returns (length: int)
      requires PartsValid() && e.Proper() && |e.text| != Max(0, room - HEADER)
      requires room == (if readPos == 0 then buf.Length else readPos) - writePos
      modifies `writePos, `firstMsg, `newer, buf
      ensures PartsValid() && (length > 0 <==> Fits(e, room)) && (length <= 0 ==> length + e.Length() == 0)
      ensures length > 0 ==> newer == old(newer) + [e] && Entries() == old(Entries()) + [e] && !firstMsg
      ensures length <= 0 ==> newer == old(newer) && firstMsg == old(firstMsg) && writePos == old(writePos)
      ensures length <= 0 && writePos == 0 && old(Marked(buf[..], 0)) ==> Marked(buf[..], 0)
    {
      hide Records, Record, Held, Chain, Marked, AllProper;
      ghost var s := buf[..];
      NewerFits(s, newer);
      if readPos > 0 {
        ChainFits(s, readPos, older);
      }
      length := WriteEntry(writePos, room, e);
      ghost var s' := buf[..];
      assert forall k :: 0 <= k < |s| && !(writePos <= k < writePos + room) ==> s'[k] == s[k];
      HeldFrame(s, s', 0, newer);
      if readPos > 0 {
        ChainFrame(s, s', readPos, older);
      }
      if length > 0 {
        assert s'[writePos..writePos + length] == buf[writePos..writePos + length];
        HeldMore(s', 0, newer, e);
        ProperMore(newer, e);
        writePos := writePos + length;
        assert older + (newer + [e]) == older + newer + [e];
        newer := newer + [e];
      } else if writePos == 0 && Marked(s, 0) {
        MarkFrame(s, s', 0);
      }
    }

    /** The end of the buffer is given up: a mark is put at the write position, and both
        positions go back to the start, where the newer part now is the older one. */
    method GiveUpTail()
      requires PartsValid()
      modifies `readPos, `writePos, `older, `newer, buf
      ensures readPos == writePos == 0 && newer == [] && older == old(newer)
      ensures OlderValid() && NewerValid()
    {
      hide Records, Record;
      NoRecords();
      var marker := buf.Length - writePos;
      if marker > 4 {
        marker := 4;
      }
      Fill(writePos, marker);
      HeldFrame(old(buf[..]), buf[..], 0, newer);
      assert marker == 4 ==> buf[..][writePos..writePos + 4] == [0, 0, 0, 0];
      readPos, writePos := 0, 0;
      older, newer := newer, [];
    }

    /** The part of `iw_syslog_add` for a message that did not fit: old messages make way,
        those at the end of the buffer first, and the message is stored. */
    method ClearAndStore(e: Entry, length: nat)
      requires PartsValid() && e.Proper() && length == e.Length() < buf.Length
      requires readPos == 0 ==> writePos + length > buf.Length
      modifies `readPos, `writePos, `firstMsg, `older, `newer, buf
      ensures PartsValid() && !firstMsg && newer != []
      ensures Entries() == AfterClearing(old(older), old(newer), old(readPos) - old(writePos), buf.Length, e)
    {
      hide Cleared, Records, Record, Held, Marked, Chain, AllProper;
      if writePos + length > buf.Length {
        GiveUpTail();
      }
      ClearOld(length);
      ghost var o, n := older, newer;
      var stored := Attempt(e, if readPos == 0 then buf.Length - writePos else readPos - writePos);
      assert older == o && newer == n + [e];
      assert o + (n + [e]) == o + n + [e] && o + ([] + [e]) == o + [e];
    }

    /** `iw_syslog_add` without the ghost bookkeeping. */
    method Place(e: Entry) returns (taken: bool)
      requires Placed() && e.Proper() && |e.text| != Max(0, Free() - HEADER)
      modifies `readPos, `writePos, `firstMsg, `older, `newer, buf
      ensures Placed()
      ensures Entries() == Next(old(older), old(newer), old(readPos), buf.Length, e)
      ensures GivesUpLeast(old(older), old(newer), old(readPos), buf.Length, e, Entries())
      ensures Fits(e, old(Free())) ==> readPos == old(readPos) && older == old(older) && newer == old(newer) + [e]
      ensures taken <==> e.Length() < buf.Length || Fits(e, old(Free()))
      ensures if taken then IsSuffix(Entries(), old(Entries()) + [e]) else Entries() == old(Entries())
    {
      hide Fits, AfterClearing, Records, Held, Marked, PartsValid, IsSuffix, GivesUpLeast, AllProper;
      FreeIsGap();
      NextGivesUpLeast(older, newer, readPos, buf.Length, e);
      NextIsSuffix(older, newer, readPos, buf.Length, e);
      UnfitIsLonger(e, Free());
      var length := Attempt(e, Free());
      taken := true;
      if length <= 0 {
        length := -length;
        if length >= buf.Length {
          return false;
        }
        ClearAndStore(e, length);
      }
    }

    lemma AtStart()
      requires Placed() && Entries() == []
      ensures readPos == 0 && older == newer == [] && |Records(newer)| == 0
    {
      assert |older| == |newer| == 0;
    }

    lemma FreeIsGap()
      requires Placed()
      ensures Free() == (if readPos == 0 then buf.Length else readPos) - writePos >= 0
      ensures writePos == |Records(newer)| && (firstMsg ==> writePos == 0)
      ensures AllProper(older) && AllProper(newer)
    {
    }

    /** `iw_syslog_add`: for any message whose first attempt is not one of the cases of
        `EntryOverrunsExactly`, the entries held are those of the specification, and the
        message is recorded as accepted exactly when it is the newest of them. No entry is
        given up without need. */
    method Add(e: Entry)
      requires Valid() && e.Proper() && |e.text| != Max(0, Free() - HEADER)
      modifies this, buf
      ensures Valid() && buf == old(buf)
      ensures Entries() == Next(old(older), old(newer), old(readPos), buf.Length, e)
      ensures GivesUpLeast(old(older), old(newer), old(readPos), buf.Length, e, Entries())
      ensures Fits(e, old(Free())) ==> readPos == old(readPos) && older == old(older) && newer == old(newer) + [e]
      ensures accepted == if e.Length() < buf.Length || Fits(e, old(Free())) then old(accepted) + [e]
                          else old(accepted)
    {
      hide Next, Fits, IsSuffix, Placed, Entries, GivesUpLeast;
      ghost var before := Entries();
      var taken := Place(e);
      if taken {
        Accept(e, before);
      }
    }

    /** The text of a record, up to its terminator. */
    method ReadText(from: nat, ghost e: Entry) returns (text: seq<byte>)
      requires e.Proper() && from + |e.text| < buf.Length
      requires buf[from..from + |e.text|] == e.text && buf[from + |e.text|] == 0
      ensures text == e.text
    {
      var i := 0;
      while buf[from + i] != 0
        invariant 0 <= i <= |e.text|
        decreases |e.text| - i
      {
        assert i < |e.text| ==> buf[from + i] == e.text[i];
        i := i + 1;
      }
      text := buf[from..from + i];
    }

    /** One pass of `iw_syslog_display`: the records from `start` on, up to `end` or to the
        mark behind the last one. */
    method Walk(start: nat, end: nat, ghost es: seq<Entry>) returns (out: seq<Entry>)
      requires end <= buf.Length && Held(buf[..], start, es) && AllProper(es)
      requires start + |Records(es)| == end || (start + |Records(es)| < end && Marked(buf[..], start + |Records(es)|))
      ensures out == es
    {
      hide Records, Record, Held, AllProper, Marked;
      out := [];
      var ptr: nat := start;
      ghost var s, left := buf[..], es;
      while ptr + HEADER < end
        invariant Held(s, ptr, left) && AllProper(left) && out + left == es
        invariant ptr + |Records(left)| == start + |Records(es)|
        decreases |left|, end - ptr
      {
        assert buf[ptr..ptr + 4] == s[ptr..ptr + 4];
        var length := FromBigEndian(buf[ptr..ptr + 4]);
        if left == [] {
          assert Records(left) == [] by { NoRecords(); }
          assert length == 0 by { ChainEnd(s, ptr); }
        } else {
          HeldFirst(s, ptr, left);
          ProperTail(left);
          RecordFields(s, ptr, left[0]);
        }
        if length == 0 {
          break;
        }
        var stamp := buf[ptr + 4..ptr + HEADER];
        assert stamp == s[ptr + 4..ptr + HEADER];
        assert buf[ptr + HEADER..ptr + HEADER + |left[0].text|] == s[ptr + HEADER..ptr + HEADER + |left[0].text|];
        var text := ReadText(ptr + HEADER, left[0]);
        assert Entry(stamp, text) == left[0];
        out := out + [Entry(stamp, text)];
        ptr := ptr + length;
        left := left[1..];
      }
      if left != [] {
        HeldFirst(s, ptr, left);
      }
    }

    /** What each pass of the display finds. */
    lemma Passes()
      requires Valid()
      ensures Held(buf[..], 0, newer) && AllProper(newer)
      ensures
        var length, end := |Records(newer)|, if writePos > 0 then writePos else buf.Length;
        length == end || (length < end && Marked(buf[..], length))
      ensures if readPos == 0 then older == []
              else
                var last := readPos + |Records(older)|;
                && writePos <= readPos && last <= buf.Length
                && Held(buf[..], readPos, older) && AllProper(older) && Marked(buf[..], last)
    {
      NoRecords();
    }

    /** `iw_syslog_display`: shows the entries held, oldest first. */
    method Display() returns (out: seq<Entry>)
      requires Valid()
      ensures out == Entries() && IsSuffix(out, accepted)
    {
      hide Records, Held, AllProper, Marked;
      Passes();
      out := [];
      var ptr := readPos;
      var max := if ptr > 0 then 2 else 1;
      var count := 0;
      while count < max
        invariant 0 <= count <= max
        invariant count == 0 ==> ptr == readPos && out == []
        invariant count == 1 ==> ptr == 0 && out == if max == 2 then older else newer
        invariant count == 2 ==> out == older + newer
      {
        var end := if writePos > ptr then writePos else buf.Length;
        var pass := Walk(ptr, end, if ptr > 0 then older else newer);
        out := out + pass;
        ptr := 0;
        count := count + 1;
      }
    }

    /** Ghost bookkeeping of a message that was taken. */
    ghost method Accept(e: Entry, before: seq<Entry>)
      requires IsSuffix(before, accepted) && IsSuffix(Entries(), before + [e])
      modifies `accepted
      ensures accepted == old(accepted) + [e] && IsSuffix(Entries(), accepted)
    {
      assert before + [e] == (accepted + [e])[|accepted| - |before|..];
      accepted := accepted + [e];
    }
  }

  lemma CutHello(stamp: seq<byte>)
    requires |stamp| == 16
    ensures CutRecord(Entry(stamp, [72, 101, 108, 108, 111])) == [0, 0, 0, 26] + stamp + [72, 101, 108, 108, 0]
  {
    var hello: seq<byte> := [72, 101, 108, 108, 111];
    var e := Entry(stamp, hello);
    assert hello[..4] == [72, 101, 108, 108];
    assert BigEndian(e.Length()) == [0, 0, 0, 26];
  }

  lemma ThreeRecords(a: Entry, b: Entry, c: Entry)
    requires a.Proper() && b.Proper() && c.Proper()
    ensures |Records([a])| == a.Length() && |Records([a, b])| == a.Length() + b.Length()
    ensures |Records([a, b, c])| == a.Length() + b.Length() + c.Length()
  {
    RecordsOne(a);
    RecordsAppend([a], [b]);
    RecordsOne(b);
    RecordsAppend([a, b], [c]);
    RecordsOne(c);
    assert [a] + [b] == [a, b] && [a, b] + [c] == [a, b, c];
  }

  lemma OnlyFirst(a: Entry, b: Entry, c: Entry, d: Entry, held: seq<Entry>)
    requires a.Proper() && b.Proper() && c.Proper() && d.Proper()
    requires |a.text| == |b.text| == |c.text| == |d.text| == 9
    requires GivesUpLeast([], [a, b, c], 0, 100, d, held)
    ensures held == [b, c, d]
  {
    hide Record, Records;
    ThreeRecords(a, b, c);
    RecordLength(d);
    NoRecords();
    var all := [a, b, c];
    assert all[..0] == [] && all[..1] == [a] && all[..2] == [a, b];
    assert all[1..] + [d] == [b, c, d];
  }

  lemma ProperTail(es: seq<Entry>)
    requires es != [] && AllProper(es)
    ensures es[0].Proper() && AllProper(es[1..])
  {
  }

  lemma ChainEnd(s: seq<byte>, at: nat)
    requires at + 4 <= |s| && Marked(s, at)
    ensures FromBigEndian(s[at..at + 4]) == 0
  {
  }

  lemma UnfitIsLonger(e: Entry, free: int)
    requires |e.text| != Max(0, free - HEADER)
    ensures !Fits(e, free) ==> e.Length() > free
  {
  }

  lemma MarkFrame(s: seq<byte>, s': seq<byte>, at: nat)
    requires Marked(s, at) && |s'| == |s|
    requires forall k :: at <= k < at + 4 && k < |s| ==> s'[k] == s[k]
    ensures Marked(s', at)
  {
    if at + 4 <= |s| {
      assert s'[at..at + 4] == s[at..at + 4];
    }
  }

  lemma ClearedStep(older: seq<Entry>, gap: int, length: nat)
    ensures Cleared(older, gap, length)
         == if gap >= length || older == [] then 0 else 1 + Cleared(older[1..], gap + older[0].Length(), length)
  {
  }

  lemma ProperMore(es: seq<Entry>, e: Entry)
    requires AllProper(es) && e.Proper()
    ensures AllProper(es + [e])
  {
  }

  lemma ChainFits(s: seq<byte>, at: nat, es: seq<Entry>)
    requires Chain(s, at, es)
    ensures at <= |s|
  {
  }

  lemma NewerFits(s: seq<byte>, es: seq<Entry>)
    requires Held(s, 0, es)
    ensures |Records(es)| <= |s|
  {
  }

  lemma NoRecords()
    ensures Records([]) == [] && forall s: seq<byte> :: Held(s, 0, [])
  {
  }
}
