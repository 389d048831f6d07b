/** VFAT names: how a name becomes directory entries, and how the entries are read back. */
module Lfn {
  import opened Bytes

  type Entry = e: seq<Byte> | |e| == 32 witness seq(32, _ => 0)

  // ---------------------------------------------------------------------------
  // Writing
  // ---------------------------------------------------------------------------

  /** The short name: up to 8 characters before the first dot, up to 3 after it, in capitals, padded with spaces. */
  function Capital(c: Byte): Byte { if 97 <= c <= 122 then c - 32 else c }

  function FirstDot(name: seq<Byte>): (n: nat)
    ensures n <= |name| && (n < |name| ==> name[n] == 46)
  {
    if name == [] || name[0] == 46 then 0 else 1 + FirstDot(name[1..])
  }

  function Field(s: seq<Byte>, n: nat): (r: seq<Byte>)
    ensures |r| == n
  {
    seq<Byte>(n, i requires 0 <= i < n => if i < |s| then Capital(s[i]) else 32)
  }

  function ShortOf(name: seq<Byte>): (r: seq<Byte>)
    ensures |r| == 11
  {
    var dot := FirstDot(name);
    Field(name[..dot], 8) + Field(if dot < |name| then name[dot + 1..] else [], 3)
  }

  /** fat32_checksum: rotate right and add, in eight bits. */
  function Checksum(sfn: seq<Byte>): Byte {
    if sfn == [] then 0
    else
      var sum := Checksum(sfn[..|sfn| - 1]);
      ((if sum % 2 == 1 then 0x80 else 0) + sum / 2 + sfn[|sfn| - 1]) % 256
  }

  /** The 16-bit unit for position `i`: the character, the terminator, or filler. */
  function Unit(name: seq<Byte>, i: nat): seq<Byte> {
    if i < |name| then [name[i], 0] else if i == |name| then [0, 0] else [0xFF, 0xFF]
  }

  function Units(name: seq<Byte>, start: nat, n: nat): (r: seq<Byte>)
    ensures |r| == 2 * n
  {
    if n == 0 then [] else Units(name, start, n - 1) + Unit(name, start + n - 1)
  }

  function Needed(name: seq<Byte>): nat { (|name| + 12) / 13 }

  /** Fragment `k` of the name; the last one carries the flag 0x40 and is stored first. */
  function Fragment(name: seq<Byte>, k: nat): (e: Entry)
    requires k < Needed(name) && |name| <= 255
  {
    [if k == Needed(name) - 1 then k + 1 + 0x40 else k + 1] + Units(name, 13 * k, 5)
    + [0x0F, 0, Checksum(ShortOf(name))] + Units(name, 13 * k + 5, 6) + [0, 0] + Units(name, 13 * k + 11, 2)
  }

  /** Fragments n - 1 down to 0. */
  function Fragments(name: seq<Byte>, n: nat): (r: seq<Entry>)
    requires n <= Needed(name) && |name| <= 255
    ensures |r| == n
  {
    if n == 0 then [] else [Fragment(name, n - 1)] + Fragments(name, n - 1)
  }

  function ShortEntry(name: seq<Byte>, attr: Byte, cluster: nat, size: nat): (e: Entry) {
    ShortOf(name) + [attr] + [0, 0, 0, 0, 0, 0, 0, 0] + Half(cluster / 0x1_0000) + [0, 0, 0, 0] + Half(cluster)
    + WordBytes(size)
  }

  function Half(v: nat): (r: seq<Byte>)
    ensures |r| == 2
  {
    [v % 256, v / 256 % 256]
  }

  /** All the entries of one name. */
  function EntriesOf(name: seq<Byte>, attr: Byte, cluster: nat, size: nat): seq<Entry>
    requires |name| <= 255
  {
    Fragments(name, Needed(name)) + [ShortEntry(name, attr, cluster, size)]
  }

  // ---------------------------------------------------------------------------
  // Reading
  // ---------------------------------------------------------------------------

  const BUFFER: nat := 256

  type Buffer = b: seq<Byte> | |b| == 256 witness seq(256, _ => 0)

  function Zeros(): Buffer { seq(256, _ => 0) }

  /** What is kept between entries: whether a long name is under way, its checksum and its characters. */
  datatype Scan = Scan(has: bool, sum: Byte, buffer: Buffer)

  /** The unit read through signed characters: a low octet of 0x80 or more drags the high octet to 0xFF. */
  function Wide(lo: Byte, hi: Byte): nat { lo + 256 * (if lo >= 0x80 then 0xFF else hi) }

  predicate Stops(lo: Byte, hi: Byte) { Wide(lo, hi) == 0 || Wide(lo, hi) == 0xFFFF }

  /** Reads up to `n` units from octet `at` on into the buffer from `off` on. */
  function Group(buffer: Buffer, e: Entry, at: nat, n: nat, off: nat): (r: (Buffer, nat))
    requires at + 2 * n <= 32
    ensures off <= r.1 && (off <= 255 ==> r.1 <= 255)
    decreases n
  {
    if n == 0 || off >= 255 || Stops(e[at], e[at + 1]) then (buffer, off)
    else Group(buffer[off := e[at]], e, at + 2, n - 1, off + 1)
  }

  function Filled(buffer: Buffer, e: Entry, off: nat): Buffer {
    var (b1, o1) := Group(buffer, e, 1, 5, off);
    var (b2, o2) := Group(b1, e, 14, 6, o1);
    Group(b2, e, 28, 2, o2).0
  }

  /** A long-name entry. */
  function Long(st: Scan, e: Entry): Scan {
    var flagged := e[0] / 0x40 % 2 == 1;
    if !flagged && st.has && e[13] != st.sum then st.(has := false)
    else
      var s := if flagged then Scan(true, e[13], Zeros()) else st;
      var k := e[0] % 0x20;
      if 1 <= k <= 20 then s.(buffer := Filled(s.buffer, e, 13 * (k - 1))) else s
  }

  /** The buffer up to its first zero. */
  function Text(b: seq<Byte>): seq<Byte> {
    if b == [] || b[0] == 0 then [] else [b[0]] + Text(b[1..])
  }

  datatype Node = Node(name: seq<Byte>, directory: bool, readOnly: bool, cluster: nat, size: nat)

  function Dense(s: seq<Byte>): seq<Byte> {
    if s == [] then [] else (if s[0] == 32 then [] else [s[0]]) + Dense(s[1..])
  }

  function Lower(s: seq<Byte>): seq<Byte> {
    seq<Byte>(|s|, i requires 0 <= i < |s| => if 65 <= s[i] <= 90 then s[i] + 32 else s[i])
  }

  /** fat32_format_name. */
  function ShortText(raw: seq<Byte>): seq<Byte>
    requires |raw| == 11
  {
    Lower(Dense(raw[..8]) + if raw[8] == 32 then [] else [46] + Dense(raw[8..]))
  }

  function NodeOf(st: Scan, e: Entry): Node {
    var long := st.has && Checksum(e[..11]) == st.sum && Text(st.buffer) != [];
    Node(if long then Text(st.buffer) else ShortText(e[..11]), e[11] / 0x10 % 2 == 1, e[11] % 2 == 1,
         0x1_0000 * (e[20] + 256 * e[21] as int) + e[26] + 256 * e[27] as int, Word(e, 7))
  }

  predicate Ends(e: Entry) { e[0] == 0 }

  predicate Open(e: Entry) { e[0] == 0 || e[0] == 0xE5 }

  /** The state after an entry that does not end the directory, and the node it completes, if any. */
  function After(st: Scan, e: Entry): (Scan, seq<Node>) {
    if e[0] == 0xE5 then (st.(has := false), [])
    else if e[11] == 0x0F then (Long(st, e), [])
    else if e[11] / 8 % 2 == 1 then (st.(has := false), [])
    else (st.(has := false), [NodeOf(st, e)])
  }

  /** What readdir can return, in index order. */
  function Listing(es: seq<Entry>, st: Scan): seq<Node> {
    if es == [] || Ends(es[0]) then []
    else After(st, es[0]).1 + Listing(es[1..], After(st, es[0]).0)
  }
}
