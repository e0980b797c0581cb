/** The kernel profiler's report: checking a dump, naming addresses, and folding stacks. */
module KernelPerf {
  import opened Numerals
  import opened Strings
  import opened Wrappers

  const ADDRESS_MAX: nat := 0xffff_ffff_ffff_ffff
  const MAX_DEPTH: nat := 16

  // ----- dumps -----

  datatype Kind = Kernel | User

  /** A stack of `pcs`, innermost first, seen `count` times. */
  datatype Record = Record(kind: Kind, count: nat, cpu: nat, tid: nat, generation: nat, pcs: seq<nat>) {
    /** What the parser of a record lets through. */
    predicate Valid() {
      && 0 < count <= UINT32_MAX && tid <= UINT32_MAX && generation <= UINT32_MAX && cpu <= 0xff
      && |pcs| <= MAX_DEPTH && (forall i :: 0 <= i < |pcs| ==> pcs[i] <= ADDRESS_MAX)
      && (kind.Kernel? <==> pcs != [])
    }
  }

  /** A dump: the header fields that are numbers, where they could be read, and the records. */
  datatype Dump = Dump(version: Option<string>, session: Option<string>, samples: Option<int>, stacks: Option<int>,
                       dropped: Option<int>, textStart: Option<int>, textEnd: Option<int>, records: seq<Record>)

  function Recorded(records: seq<Record>): nat {
    if records == [] then 0 else Recorded(records[..|records| - 1]) + records[|records| - 1].count
  }

  predicate InRange(n: Option<int>) {
    n.Some? && 0 <= n.value <= UINT32_MAX
  }

  predicate Validated(d: Dump) {
    && d.version == Some("2") && (d.session == Some("boot") || d.session == Some("manual"))
    && InRange(d.samples) && InRange(d.stacks) && InRange(d.dropped)
    && d.textStart.Some? && d.textEnd.Some? && 0 <= d.textStart.value < d.textEnd.value <= ADDRESS_MAX
    && d.stacks == Some(|d.records|) && d.samples == Some(Recorded(d.records))
  }

  method Validate(d: Dump) returns (ok: bool)
    ensures ok == Validated(d)
  {
    if d.version != Some("2") || (d.session != Some("boot") && d.session != Some("manual")) { return false; }
    if !InRange(d.samples) || !InRange(d.stacks) || !InRange(d.dropped) { return false; }
    if d.textStart.None? || d.textEnd.None? { return false; }
    if d.textStart.value < 0 || d.textStart.value >= d.textEnd.value || d.textEnd.value > ADDRESS_MAX { return false; }
    if d.stacks.value != |d.records| { return false; }
    var recorded := 0;
    for i := 0 to |d.records|
      invariant recorded == Recorded(d.records[..i])
    {
      assert d.records[..i + 1][..i] == d.records[..i];
      recorded := recorded + d.records[i].count;
    }
    assert d.records[..|d.records|] == d.records;
    ok := recorded == d.samples.value;
  }

  // ----- symbols -----

  /** Text symbols in the order of their addresses, and the bounds of the text. */
  datatype Symbols = Symbols(addresses: seq<nat>, names: seq<string>, textStart: nat, textEnd: nat) {
    ghost predicate Valid() {
      && |addresses| == |names| > 0
      && forall i, j :: 0 <= i <= j < |addresses| ==> addresses[i] <= addresses[j]
    }
  }

  /** Where `x` would be inserted into `a` behind its equals. */
  method BisectRight(a: seq<nat>, x: nat) returns (lo: nat)
    requires forall i, j :: 0 <= i <= j < |a| ==> a[i] <= a[j]
    ensures lo <= |a|
    ensures forall i :: 0 <= i < lo ==> a[i] <= x
    ensures forall i :: lo <= i < |a| ==> a[i] > x
  {
    lo := 0;
    var hi := |a|;
    while lo < hi
      invariant lo <= hi <= |a|
      invariant forall i :: 0 <= i < lo ==> a[i] <= x
      invariant forall i :: hi <= i < |a| ==> a[i] > x
    {
      var mid := (lo + hi) / 2;
      if x < a[mid] {
        hi := mid;
      } else {
        lo := mid + 1;
      }
    }
  }

  /** The index of the last symbol at or below an address. */
  ghost predicate Covers(s: Symbols, i: nat, address: nat)
    requires s.Valid()
  {
    && i < |s.addresses| && s.addresses[i] <= address
    && forall j :: i < j < |s.addresses| ==> s.addresses[j] > address
  }

  function Hex(n: nat): string {
    "0x" + HexText(n)
  }

  function WithOffset(name: string, offset: nat, showOffset: bool): string {
    if showOffset && offset != 0 then name + "+" + Hex(offset) else name
  }

  /** The name of an address. */
  ghost function NameOf(s: Symbols, address: nat, showOffset: bool): string
    requires s.Valid()
  {
    if s.textStart <= address < s.textEnd && exists i: nat :: Covers(s, i, address) then
      var i: nat :| Covers(s, i, address);
      WithOffset(s.names[i], address - s.addresses[i], showOffset)
    else Hex(address)
  }

  lemma CoverIsUnique(s: Symbols, i: nat, j: nat, address: nat)
    requires s.Valid() && Covers(s, i, address) && Covers(s, j, address)
    ensures i == j
  {
  }

  /** An address in the text has the name of the last symbol at or below it, and behind it, if asked for,
      the distance in hexadecimal unless it is 0; any other address is a hexadecimal number. */
  lemma NameMeans(s: Symbols, i: nat, address: nat, showOffset: bool)
    requires s.Valid()
    ensures s.textStart <= address < s.textEnd && Covers(s, i, address) ==>
      var name, offset := NameOf(s, address, showOffset), address - s.addresses[i];
      if !showOffset || offset == 0 then name == s.names[i]
      else exists d :: AllHex(d) && HexValue(d) == offset && name == s.names[i] + ("+0x" + d)
    ensures address < s.textStart || address >= s.textEnd || address < s.addresses[0] ==>
      exists d :: AllHex(d) && HexValue(d) == address && NameOf(s, address, showOffset) == "0x" + d
  {
    hide HexText, HexValue;
    HexTextValue(address);
    if s.textStart <= address < s.textEnd && Covers(s, i, address) {
      forall j: nat | Covers(s, j, address) ensures j == i {
        CoverIsUnique(s, i, j, address);
      }
      var offset := address - s.addresses[i];
      HexTextValue(offset);
      assert s.names[i] + "+" + ("0x" + HexText(offset)) == s.names[i] + ("+0x" + HexText(offset));
    }
  }

  method Resolve(s: Symbols, address: nat, showOffset: bool) returns (name: string)
    requires s.Valid()
    ensures name == NameOf(s, address, showOffset)
  {
    if address < s.textStart || address >= s.textEnd { return Hex(address); }
    var above := BisectRight(s.addresses, address);
    if above == 0 { return Hex(address); }
    var index := above - 1;
    assert Covers(s, index, address);
    forall i: nat | Covers(s, i, address) ensures i == index {
      CoverIsUnique(s, i, index, address);
    }
    name := WithOffset(s.names[index], address - s.addresses[index], showOffset);
  }

  // ----- joining frames -----

  function Join(frames: seq<string>): string {
    if frames == [] then "" else if |frames| == 1 then frames[0] else frames[0] + ";" + Join(frames[1..])
  }

  function Split(s: string): (r: seq<string>)
    ensures r != [] && forall i :: 0 <= i < |r| ==> ';' !in r[i]
    decreases |s|
  {
    var i := Find(s, ';');
    if i == |s| then [s] else [s[..i]] + Split(s[i + 1..])
  }

  /** Frames come back from a folded line exactly when there is one and none holds a semicolon. */
  lemma {:induction false} SplitJoin(frames: seq<string>)
    ensures Split(Join(frames)) == frames <==> frames != [] && forall i :: 0 <= i < |frames| ==> ';' !in frames[i]
  {
    if frames != [] && forall i :: 0 <= i < |frames| ==> ';' !in frames[i] {
      JoinSplits(frames);
    }
  }

  lemma {:induction false} JoinSplits(frames: seq<string>)
    requires frames != [] && forall i :: 0 <= i < |frames| ==> ';' !in frames[i]
    ensures Split(Join(frames)) == frames
  {
    var f, s := frames[0], Join(frames);
    if |frames| == 1 {
      FindIs(s, ';', |s|);
      assert frames == [f];
    } else {
      var t := Join(frames[1..]);
      assert s == f + ";" + t && s[..|f|] == f && s[|f| + 1..] == t;
      FindIs(s, ';', |f|);
      JoinSplits(frames[1..]);
      assert frames == [f] + frames[1..];
    }
  }
}
