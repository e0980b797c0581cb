/** Demos: what is recorded is what was played, and what is played back. */
module DoomDemo {
  import opened Octets
  import opened DoomCmd
  import opened Wrappers

  // ----- machine integers -----

  /** Wrap to a signed 16-bit number. */
  function Signed16(n: int): (r: int)
    ensures -32768 <= r < 32768 && (r - n) % 65536 == 0
  {
    if n % 65536 < 32768 then n % 65536 else n % 65536 - 65536
  }

  function Byte(n: int): byte {
    n % 256
  }

  // ----- commands -----

  const MARKER: byte := 0x80

  function Size(long: bool): nat {
    if long then 5 else 4
  }

  /** The bytes of a command, with a turn of two bytes or of one. */
  function Encode(c: Cmd, long: bool): (s: seq<byte>)
    ensures |s| == Size(long)
  {
    [Byte(c.forward), Byte(c.side)]
    + (if long then [Byte(c.turn), Byte(c.turn / 256)] else [Byte(c.turn / 256)])
    + [c.buttons]
  }

  /** The command `c` with what is read from the bytes at `s`. */
  function Decode(c: Cmd, s: seq<byte>, long: bool): Cmd
    requires |s| >= Size(long)
  {
    var lo: int, hi: int := s[2], if long then s[3] else s[2];
    var turn: int := if long then lo + 256 * hi else 256 * hi;
    Cmd(SignedByte(s[0]), SignedByte(s[1]), Signed16(turn), c.chat, s[Size(long) - 1], c.rest)
  }

  /** What is left of a command after it has been recorded: in the byte format the turn is rounded
      down to a multiple of 256. */
  function Simulated(c: Cmd, long: bool): Cmd {
    c.(turn := if long then c.turn else c.turn / 256 * 256)
  }

  lemma ByteBack(n: int)
    requires -128 <= n < 128
    ensures SignedByte(Byte(n)) == n && (Byte(n) == MARKER <==> n == -128)
  {
  }

  lemma SignedTurn(n: int)
    requires -32768 <= n < 32768
    ensures Signed16(Byte(n) + 256 * Byte(n / 256)) == n
    ensures Signed16(256 * Byte(n / 256)) == n / 256 * 256
  {
    hide Signed16;
    var high := n / 256;
    assert n == 256 * high + n % 256 && -128 <= high < 128;
    assert Byte(high) == if high < 0 then high + 256 else high;
    WholeTurns(n, if high < 0 then n + 65536 else n);
    WholeTurns(256 * high, if high < 0 then 256 * high + 65536 else 256 * high);
  }

  lemma WholeTurns(n: int, m: int)
    requires -32768 <= n < 32768 && (m == n || m == n + 65536)
    ensures Signed16(m) == n
  {
  }

  /** The file format: forward and side move, the turn, in the long format low byte first, and the buttons,
      every number in two's complement. */
  lemma BytesAre(c: Cmd, long: bool)
    requires c.Valid()
    ensures var s := Encode(c, long);
      && |s| == (if long then 5 else 4)
      && s[0] == (if c.forward < 0 then c.forward + 256 else c.forward)
      && s[1] == (if c.side < 0 then c.side + 256 else c.side)
      && s[|s| - 1] == c.buttons
      && (long ==> s[2] + 256 * (s[3] as int) == if c.turn < 0 then c.turn + 65536 else c.turn)
      && (!long ==> var high: int := s[2]; var t := if high < 128 then high else high - 256;
            256 * t <= c.turn < 256 * t + 256)
  {
  }

  /** A recorded command is read back as it was simulated, and is lost to the marker exactly when its
      forward move is -128. */
  lemma DecodeEncode(c: Cmd, d: Cmd, long: bool, rest: seq<byte>)
    requires c.Valid()
    ensures Decode(d, Encode(c, long) + rest, long) == Simulated(c, long).(chat := d.chat, rest := d.rest)
    ensures Encode(c, long)[0] == MARKER <==> c.forward == -128
  {
    ByteBack(c.forward);
    ByteBack(c.side);
    SignedTurn(c.turn);
  }

  // ----- a demo as bytes -----

  function EncodeAll(cs: seq<Cmd>, long: bool): seq<byte> {
    if cs == [] then [] else EncodeAll(cs[..|cs| - 1], long) + Encode(cs[|cs| - 1], long)
  }

  /** The moves, turns and buttons read up to the marker; None when the bytes end before it. */
  function PlayBack(s: seq<byte>, long: bool): Option<seq<Cmd>>
    decreases |s|
  {
    if s == [] then None
    else if s[0] == MARKER then Some([])
    else if |s| < Size(long) then None
    else
      var more :- PlayBack(s[Size(long)..], long);
      Some([Decode(EMPTY, s, long)] + more)
  }

  function Recorded(c: Cmd, long: bool): Cmd {
    Simulated(c, long).(chat := 0, rest := 0)
  }

  function AllRecorded(cs: seq<Cmd>, long: bool): (r: seq<Cmd>)
    ensures |r| == |cs|
  {
    seq(|cs|, i requires 0 <= i < |cs| => Recorded(cs[i], long))
  }

  predicate NoMarker(cs: seq<Cmd>) {
    forall i :: 0 <= i < |cs| ==> cs[i].Valid() && cs[i].forward != -128
  }

  /** Fidelity: playback of a finished demo yields what was simulated while it was recorded, and
      stops at the marker. */
  lemma {:induction false} Fidelity(cs: seq<Cmd>, long: bool, rest: seq<byte>)
    requires NoMarker(cs)
    ensures PlayBack(EncodeAll(cs, long) + [MARKER] + rest, long) == Some(AllRecorded(cs, long))
  {
    PlayFrom(cs, 0, long, rest);
    assert EncodeFrom(cs, 0, long) == EncodeAll(cs, long) by { EncodeSplit(cs, 0, long); }
    assert cs[0..] == cs;
  }

  /** The bytes of the commands from `i` on. */
  function EncodeFrom(cs: seq<Cmd>, i: nat, long: bool): seq<byte>
    requires i <= |cs|
    decreases |cs| - i
  {
    if i == |cs| then [] else Encode(cs[i], long) + EncodeFrom(cs, i + 1, long)
  }

  lemma {:induction false} EncodeSplit(cs: seq<Cmd>, i: nat, long: bool)
    requires i <= |cs|
    ensures EncodeAll(cs[..i], long) + EncodeFrom(cs, i, long) == EncodeAll(cs, long)
    decreases |cs| - i
  {
    hide Encode;
    if i == |cs| {
      assert cs[..i] == cs && EncodeAll(cs, long) + [] == EncodeAll(cs, long);
    } else {
      EncodeSplit(cs, i + 1, long);
      assert cs[..i + 1] == cs[..i] + [cs[i]];
      EncodeMore(cs[..i], cs[i], long);
      Assoc(EncodeAll(cs[..i], long), Encode(cs[i], long), EncodeFrom(cs, i + 1, long));
    }
  }

  lemma EncodeMore(cs: seq<Cmd>, c: Cmd, long: bool)
    ensures EncodeAll(cs + [c], long) == EncodeAll(cs, long) + Encode(c, long)
  {
    assert (cs + [c])[..|cs|] == cs;
  }

  lemma Assoc(a: seq<byte>, b: seq<byte>, c: seq<byte>)
    ensures a + (b + c) == a + b + c
  {
  }

  lemma {:induction false} PlayFrom(cs: seq<Cmd>, i: nat, long: bool, rest: seq<byte>)
    requires i <= |cs| && NoMarker(cs)
    ensures PlayBack(EncodeFrom(cs, i, long) + [MARKER] + rest, long) == Some(AllRecorded(cs[i..], long))
    decreases |cs| - i
  {
    var s := EncodeFrom(cs, i, long) + [MARKER] + rest;
    if i < |cs| {
      var t := EncodeFrom(cs, i + 1, long) + [MARKER] + rest;
      assert s == Encode(cs[i], long) + t;
      DecodeEncode(cs[i], EMPTY, long, t);
      assert s[Size(long)..] == t;
      PlayFrom(cs, i + 1, long, rest);
      assert AllRecorded(cs[i..], long) == [Recorded(cs[i], long)] + AllRecorded(cs[i + 1..], long);
    }
  }

  // ----- the buffer -----

  /** What recording keeps: the header and the commands are in the buffer, and 11 bytes are free behind
      them, enough for a command and a marker. */
  class Recorder {
    const long: bool
    /** Stop at the end of the buffer, as the first versions did. */
    const limited: bool
    var buffer: array<byte>
    var p: nat
    var recording: bool
    var file: seq<byte>
    ghost const header: seq<byte>
    ghost var cmds: seq<Cmd>

    ghost predicate Valid()
      reads this, buffer
    {
      && NoMarker(cmds)
      && (recording ==> p + 11 <= buffer.Length && buffer[..p] == header + EncodeAll(cmds, long))
      && (!recording ==> file == header + EncodeAll(cmds, long) + [MARKER])
    }

    constructor (size: nat, header: seq<byte>, long: bool, limited: bool)
      requires |header| + 11 <= size
      ensures Valid() && recording && cmds == [] && this.header == header && fresh(buffer)
      ensures this.long == long && this.limited == limited
    {
      this.long, this.limited, this.header, this.cmds := long, limited, header, [];
      buffer := new byte[size](i => if 0 <= i < |header| then header[i] else 0);
      p, recording, file := |header|, true, [];
      new;
      assert buffer[..p] == header;
    }

    /** End the demo: a marker, and the file is written. */
    method Stop()
      requires Valid() && recording
      modifies this`p, this`file, this`recording, buffer
      ensures Valid() && !recording
    {
      ghost var was := buffer[..p];
      buffer[p] := MARKER;
      p := p + 1;
      file := buffer[..p];
      assert file == was + [MARKER];
      recording := false;
    }

    /** Twice the space, with the same bytes in it. */
    method Grow()
      modifies this`buffer
      ensures fresh(buffer) && buffer.Length == 2 * old(buffer.Length)
      ensures buffer[..old(buffer.Length)] == old(buffer[..])
    {
      var larger := new byte[2 * buffer.Length](_ => 0);
      forall i | 0 <= i < buffer.Length {
        larger[i] := buffer[i];
      }
      assert larger[..buffer.Length] == buffer[..];
      buffer := larger;
    }

    /** Put the bytes of a command behind the others, leaving `p` where it is. */
    method Put(cmd: Cmd)
      requires p + Size(long) <= buffer.Length
      modifies buffer
      ensures buffer[..p] == old(buffer[..p]) && buffer[p..p + Size(long)] == Encode(cmd, long)
    {
      buffer[p] := Byte(cmd.forward);
      buffer[p + 1] := Byte(cmd.side);
      if long {
        buffer[p + 2] := Byte(cmd.turn);
        buffer[p + 3] := Byte(cmd.turn / 256);
        buffer[p + 4] := cmd.buttons;
      } else {
        buffer[p + 2] := Byte(cmd.turn / 256);
        buffer[p + 3] := cmd.buttons;
      }
    }

    /** The bytes of `cmd` stand behind the others, and are not counted yet. */
    ghost predicate Tentative(cmd: Cmd)
      reads this, buffer
    {
      && Valid() && recording && cmd.Valid() && p + Size(long) <= buffer.Length
      && buffer[p..p + Size(long)] == Encode(cmd, long)
    }

    method MakeRoom(ghost cmd: Cmd)
      requires Tentative(cmd)
      modifies this`buffer
      ensures Tentative(cmd) && p + 16 <= buffer.Length && (buffer == old(buffer) || fresh(buffer))
    {
      if p + 16 > buffer.Length {
        ghost var n := buffer.Length;
        Grow();
        assert buffer[..p] == buffer[..n][..p];
        assert buffer[p..p + Size(long)] == buffer[..n][p..p + Size(long)];
      }
    }

    /** Read the command just put, so that it is played exactly as it will be played back. */
    method ReadBack(cmd: Cmd) returns (played: Cmd)
      requires Tentative(cmd) && p + 16 <= buffer.Length
      modifies this, buffer
      ensures Valid() && buffer == old(buffer)
      ensures recording == (cmd.forward != -128)
      ensures recording ==> cmds == old(cmds) + [cmd] && played == Simulated(cmd, long)
      ensures !recording ==> cmds == old(cmds)
    {
      hide Decode, Encode, EncodeAll, Simulated;
      DecodeEncode(cmd, cmd, long, []);
      ghost var was, written := buffer[..p], buffer[p..p + Size(long)];
      assert written + [] == written && written[0] == buffer[p];
      played := cmd;
      if buffer[p] == MARKER {
        Stop();
        return;
      }
      played := Decode(cmd, buffer[p..p + Size(long)], long);
      SimulatedRest(cmd, long);
      p := p + Size(long);
      cmds := cmds + [cmd];
      EncodeMore(old(cmds), cmd, long);
      assert buffer[..p] == was + written;
      Assoc(header, EncodeAll(old(cmds), long), Encode(cmd, long));
    }

    /** Record a command. Recording ends instead when it is told to, when a limited buffer is full, and
        when the command would be taken for the marker. */
    method Write(cmd: Cmd, quit: bool) returns (played: Cmd)
      requires Valid() && recording && cmd.Valid()
      modifies this, buffer
      ensures Valid() && (buffer == old(buffer) || fresh(buffer))
      ensures recording == !(quit || (limited && old(p + 16 > buffer.Length)) || cmd.forward == -128)
      ensures recording ==> cmds == old(cmds) + [cmd] && played == Simulated(cmd, long)
      ensures !recording ==> cmds == old(cmds)
    {
      hide Encode, Simulated;
      played := cmd;
      if quit {
        Stop();
        return;
      }
      Put(cmd);
      if p + 16 > buffer.Length && limited {
        Stop();
        return;
      }
      MakeRoom(cmd);
      played := ReadBack(cmd);
    }
  }

  lemma SimulatedRest(c: Cmd, long: bool)
    ensures Simulated(c, long).(chat := c.chat, rest := c.rest) == Simulated(c, long)
  {
  }

  function Before(cs: seq<Cmd>, r: Option<seq<Cmd>>): Option<seq<Cmd>> {
    match r
    case None => None
    case Some(more) => Some(cs + more)
  }

  lemma BeforeMore(cs: seq<Cmd>, c: Cmd, r: Option<seq<Cmd>>)
    ensures Before(cs, Before([c], r)) == Before(cs + [c], r)
    ensures Before([], r) == r && Before(cs, Some([])) == Some(cs)
  {
    if r.Some? {
      assert cs + ([c] + r.value) == cs + [c] + r.value;
      assert [] + r.value == r.value;
    }
    assert cs + [] == cs;
  }

  /** Playing a demo back, command by command. */
  method Play(s: seq<byte>, long: bool) returns (r: Option<seq<Cmd>>)
    ensures r == PlayBack(s, long)
  {
    hide Decode, Before;
    var p, cs := 0, [];
    assert s[0..] == s;
    BeforeMore([], EMPTY, PlayBack(s, long));
    while true
      invariant 0 <= p <= |s|
      invariant PlayBack(s, long) == Before(cs, PlayBack(s[p..], long))
      decreases |s| - p
    {
      if p == |s| || (s[p] != MARKER && p + Size(long) > |s|) {
        BeforeNone(cs);
        return None;
      }
      if s[p] == MARKER {
        BeforeMore(cs, EMPTY, None);
        return Some(cs);
      }
      var c := Decode(EMPTY, s[p..], long);
      var n := p + Size(long);
      PlayOne(s[p..], long);
      assert s[p..][Size(long)..] == s[n..];
      BeforeMore(cs, c, PlayBack(s[n..], long));
      p, cs := n, cs + [c];
    }
  }

  lemma BeforeNone(cs: seq<Cmd>)
    ensures Before(cs, None) == None
  {
  }

  lemma PlayOne(s: seq<byte>, long: bool)
    requires |s| >= Size(long) && s[0] != MARKER
    ensures PlayBack(s, long) == Before([Decode(EMPTY, s, long)], PlayBack(s[Size(long)..], long))
  {
  }

  /** Record a run of commands to its end: the file plays back as what was played. */
  method RecordAll(cs: seq<Cmd>, size: nat, header: seq<byte>, long: bool) returns (file: seq<byte>, played: seq<Cmd>)
    requires |header| + 11 <= size && NoMarker(cs)
    ensures |played| == |cs| && forall i :: 0 <= i < |cs| ==> played[i] == Simulated(cs[i], long)
    ensures header <= file && PlayBack(file[|header|..], long) == Some(AllRecorded(cs, long))
  {
    hide EncodeAll, PlayBack, Simulated, AllRecorded;
    var r := new Recorder(size, header, long, false);
    played := [];
    for i := 0 to |cs|
      invariant r.Valid() && r.recording && fresh(r) && fresh(r.buffer) && r.cmds == cs[..i]
      invariant r.header == header && r.long == long && !r.limited
      invariant |played| == i && forall k :: 0 <= k < i ==> played[k] == Simulated(cs[k], long)
    {
      var c := r.Write(cs[i], false);
      played := played + [c];
    }
    r.Stop();
    file := r.file;
    Fidelity(cs, long, []);
    assert cs[..|cs|] == cs;
    assert file[|header|..] == EncodeAll(cs, long) + [MARKER] + [];
  }
}
