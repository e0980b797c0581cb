/** The tic loop of a single-player game: commands are built into a ring ahead of the game and run from it. */
module DoomTics {
  import opened DoomCmd

  const PLAYERS: nat := 8

  /** The commands of one tic, and who is in the game. */
  datatype TicSet = TicSet(cmds: seq<Cmd>, ingame: seq<bool>)

  /** The top bit of the buttons marks a special one. */
  const SPECIAL := 128

  /** A command run again for a duplicated tic: no chat, and no special buttons. */
  function Squash(c: Cmd): Cmd {
    c.(chat := 0, buttons := if c.buttons >= SPECIAL then 0 else c.buttons)
  }

  lemma SquashTwice(c: Cmd)
    ensures Squash(Squash(c)) == Squash(c)
  {
  }

  /** The set of a tic in which only player `p` is in the game, with command `c`. */
  function Alone(p: nat, c: Cmd): TicSet
    requires p < PLAYERS
  {
    TicSet(seq(PLAYERS, i => if i == p then c else EMPTY), seq(PLAYERS, i => i == p))
  }

  // ----- time -----

  /** A clock: any readings at first, and then one that advances with every reading. */
  class Clock {
    var readings: seq<nat>
    var last: nat

    constructor (readings: seq<nat>)
      ensures this.readings == readings
    {
      this.readings, this.last := readings, 0;
    }

    ghost function Left(deadline: nat): nat
      reads this
    {
      if last < deadline then deadline - last else 0
    }

    method Now() returns (t: nat)
      modifies this
      ensures t == last
      ensures |readings| < old(|readings|) || (readings == old(readings) == [] && last == old(last) + 1)
    {
      if readings != [] {
        last := readings[0];
        readings := readings[1..];
      } else {
        last := last + 1;
      }
      t := last;
    }
  }

  // ----- the loop -----

  function Least(a: int, b: int): int {
    if a < b then a else b
  }

  datatype Outcome = Ran | Waited | Error

  class TicLoop {
    const dup: nat
    const newSync: bool
    const player: nat
    /** The command that will be built for each tic. */
    const input: nat -> Cmd
    const ring: array<TicSet>
    var singletics: bool
    var maketic: nat
    var gametic: nat
    var lasttime: int
    var skiptics: int
    var oldEntertics: int
    /** What the game has been given to run, tic by tic. */
    var ran: seq<TicSet>

    /** How far building may be ahead of the game. */
    function Ahead(): nat {
      if newSync then 3 else 5
    }

    /** What the game is to be given in tic `g`: the command built for it the first time, and the
        squashed one after that. */
    function Expected(g: nat): TicSet
      requires dup > 0 && player < PLAYERS
    {
      Alone(player, if g % dup == 0 then input(g / dup) else Squash(input(g / dup)))
    }

    ghost predicate Shape()
      reads ring
    {
      && dup > 0 && player < PLAYERS && ring.Length > 9
      && forall s :: 0 <= s < ring.Length ==>
        && |ring[s].cmds| == |ring[s].ingame| == PLAYERS
        && forall i :: 0 <= i < PLAYERS && i != player ==> ring[s].cmds[i] == EMPTY && !ring[s].ingame[i]
    }

    /** Commands built and not yet run are in the ring as they were built. */
    ghost predicate Pending(from: nat)
      reads this`maketic, ring
      requires ring.Length > 0 && player < PLAYERS
    {
      forall t: nat :: from <= t < maketic ==> ring[t % ring.Length] == Alone(player, input(t))
    }

    ghost predicate Valid()
      reads this`maketic, this`gametic, this`ran, ring
    {
      && Shape()
      && gametic % dup == 0 && gametic / dup <= maketic <= gametic / dup + Ahead()
      && Pending(gametic / dup)
      && |ran| == gametic && forall g :: 0 <= g < gametic ==> ran[g] == Expected(g)
    }

    constructor (dup: nat, newSync: bool, player: nat, input: nat -> Cmd, slots: nat)
      requires dup > 0 && player < PLAYERS && slots > 9
      ensures Valid() && gametic == maketic == 0 && fresh(ring)
    {
      this.dup, this.newSync, this.player, this.input := dup, newSync, player, input;
      ring := new TicSet[slots](_ => TicSet(seq(PLAYERS, _ => EMPTY), seq(PLAYERS, _ => false)));
      singletics, maketic, gametic, lasttime, skiptics, oldEntertics, ran := false, 0, 0, 0, 0, 0, [];
    }

    /** Build the next command, unless building is far enough ahead. */
    method BuildNewTic() returns (built: bool)
      requires Valid()
      modifies this`maketic, ring
      ensures Valid()
      ensures built == (old(maketic) < gametic / dup + if newSync then 3 else 5)
      ensures maketic == if built then old(maketic) + 1 else old(maketic)
    {
      var gameticdiv := gametic / dup;
      if newSync {
        if maketic - gameticdiv > 2 { return false; }
        if maketic - gameticdiv > 8 { return false; }
      } else {
        if maketic - gameticdiv >= 5 { return false; }
      }
      var slot := maketic % ring.Length;
      var s := ring[slot];
      ghost var m := maketic;
      ring[slot] := TicSet(s.cmds[player := input(maketic)], s.ingame[player := true]);
      assert ring[slot] == Alone(player, input(maketic));
      maketic := maketic + 1;
      forall t: nat | gametic / dup <= t < maketic ensures ring[t % ring.Length] == Alone(player, input(t)) {
        if t < m { SlotsDiffer(t, m, ring.Length); }
      }
      built := true;
    }

    /** Build the commands for the time that has passed: one for each of the tics that are due once
        those to be skipped are taken off, as far as building may be ahead of the game. */
    method NetUpdate(clock: Clock)
      requires Valid()
      modifies this`maketic, this`lasttime, this`skiptics, ring, clock
      ensures Valid() && maketic >= old(maketic)
      ensures singletics ==> maketic == old(maketic) && lasttime == old(lasttime) && skiptics == old(skiptics)
      ensures !singletics ==> lasttime == clock.last / dup
      ensures !singletics ==>
        var due := lasttime - old(lasttime) - old(skiptics);
        && skiptics == (if due >= 0 then 0 else 0 - due)
        && maketic == Least(old(maketic) + (if due >= 0 then due else 0), gametic / dup + Ahead())
      ensures clock.readings == old(clock.readings) ==> clock.last >= old(clock.last) || singletics
      ensures |clock.readings| < old(|clock.readings|) || clock.readings == old(clock.readings)
      ensures singletics ==> clock.last == old(clock.last)
    {
      hide Pending, Expected;
      if singletics { return; }
      var t := clock.Now();
      var nowtime := t / dup;
      var newtics := nowtime - lasttime;
      lasttime := nowtime;
      if skiptics <= newtics {
        newtics := newtics - skiptics;
        skiptics := 0;
      } else {
        skiptics := skiptics - newtics;
        newtics := 0;
      }
      var i := 0;
      while i < newtics
        invariant Valid() && 0 <= i && maketic == old(maketic) + i && (i > 0 ==> i <= newtics)
        modifies this`maketic, ring
      {
        var built := BuildNewTic();
        if !built { break; }
        i := i + 1;
      }
    }

    /** The game has been given every command built for it `dup` times in a row, in order: as it was
        built the first time, and after that without its chat character, and without its buttons when they
        are special ones; and no other player has been in the game. */
    lemma Delivered(t: nat, i: nat)
      requires Valid() && t < gametic / dup && i < dup
      ensures t * dup + i < |ran|
      ensures var s, c := ran[t * dup + i], input(t);
        && |s.cmds| == |s.ingame| == PLAYERS
        && s.cmds[player] ==
             (if i == 0 then c else if c.buttons >= 128 then c.(chat := 0, buttons := 0) else c.(chat := 0))
        && s.ingame[player] && forall p :: 0 <= p < PLAYERS && p != player ==> !s.ingame[p]
    {
      hide Pending;
      TicOf(t, i, dup);
      InOrder(t, i, gametic, dup);
      assert ran[t * dup + i] == Alone(player, Again(t, i));
    }

    /** In the middle of tic set `t`: it has been run `i` times. */
    ghost predicate Halfway(t: nat, i: nat)
      reads this, ring
    {
      && Shape() && gametic == t * dup + i && t < maketic <= t + Ahead()
      && ring[t % ring.Length] == Alone(player, Again(t, i)) && Pending(t + 1)
      && |ran| == gametic && forall k :: 0 <= k < gametic ==> ran[k] == Expected(k)
    }

    /** The command of set `t` after `i` runs. */
    function Again(t: nat, i: nat): Cmd {
      if i == 0 then input(t) else Squash(input(t))
    }

    method RunOnce(ghost t: nat, ghost i: nat, slot: nat, lowtic: nat) returns (ok: bool)
      requires Halfway(t, i) && i < dup && slot == t % ring.Length && t < lowtic
      modifies this`gametic, this`ran, ring
      ensures ok && Halfway(t, i + 1)
    {
      hide Alone, Squash;
      TicOf(t, i, dup);
      if gametic / dup > lowtic { return false; }
      ran := ran + [ring[slot]];
      gametic := gametic + 1;
      SquashAlone(player, Again(t, i));
      SquashTwice(input(t));
      assert Squash(Again(t, i)) == Again(t, i + 1);
      ring[slot] := ring[slot].(cmds := SquashAll(ring[slot].cmds));
      AloneShape(player, Again(t, i + 1));
      forall u: nat | t + 1 <= u < maketic ensures ring[u % ring.Length] == Alone(player, input(u)) {
        SlotsDiffer(t, u, ring.Length);
      }
      ok := true;
    }

    /** Run the next command `dup` times. */
    method RunSet(lowtic: nat) returns (ok: bool)
      requires Valid() && gametic / dup < lowtic <= maketic
      modifies this`gametic, this`ran, ring
      ensures ok && Valid()
      ensures gametic == old(gametic) + dup && gametic / dup == old(gametic) / dup + 1
    {
      ghost var t := gametic / dup;
      var slot := gametic / dup % ring.Length;
      ClearAlone(player, input(t));
      WholeSets(gametic, dup);
      ring[slot] := ring[slot].(ingame := OnlyPlayer(player, ring[slot].ingame));
      assert Halfway(t, 0);
      for i := 0 to dup
        invariant Halfway(t, i)
      {
        hide Halfway;
        ok := RunOnce(t, i, slot, lowtic);
      }
      NextSet(t, dup);
      ok := true;
    }

    /** How many tic sets to run. */
    function Counts(realtics: int, available: int): (n: nat)
      ensures n >= 1 && (available >= 1 ==> n <= available)
    {
      var counts :=
        if newSync then available
        else if realtics < available - 1 then realtics + 1
        else if realtics < available then realtics
        else available;
      if counts < 1 then 1 else counts
    }

    /** All that is available is run when time has caught up with it, and always under new sync;
        otherwise one set is kept back, and so are those that are not due yet. */
    lemma CountsLeave(realtics: int, available: nat)
      requires available >= 1
      ensures var left := available - Counts(realtics, available);
        left ==
          if newSync || realtics >= available then 0
          else Least(available - 1, if available - realtics > 1 then available - realtics - 1 else 1)
    {
    }

    /** Build until `counts` sets can be run, or until time has passed. */
    method WaitForTics(clock: Clock, counts: nat, entertic: nat) returns (outcome: Outcome, lowtic: nat)
      requires Valid()
      modifies this`maketic, this`lasttime, this`skiptics, ring, clock
      ensures Valid() && outcome != Error && maketic >= old(maketic)
      ensures outcome == Ran ==> gametic / dup + counts <= lowtic <= maketic
    {
      lowtic := maketic;
      while lowtic < gametic / dup + counts
        invariant Valid() && lowtic == maketic >= old(maketic)
        decreases |clock.readings|, clock.Left((entertic + 1) * dup)
      {
        hide Shape, Pending, Expected;
        NetUpdate(clock);
        lowtic := maketic;
        if lowtic < gametic / dup { return Error, lowtic; }
        var t := clock.Now();
        if t / dup - entertic > 0 { return Waited, lowtic; }
        LateIs(t, dup, entertic);
      }
      outcome := Ran;
    }

    /** Run `counts` sets, building in between. */
    method RunSets(clock: Clock, counts: nat, lowtic: nat) returns (ok: bool)
      requires Valid() && gametic / dup + counts <= lowtic <= maketic
      modifies this`maketic, this`gametic, this`lasttime, this`skiptics, this`ran, ring, clock
      ensures ok && Valid() && gametic / dup == old(gametic) / dup + counts && maketic >= old(maketic)
    {
      ghost var t := gametic / dup;
      for left := counts downto 0
        invariant Valid() && gametic / dup + left == t + counts <= lowtic <= maketic && maketic >= old(maketic)
      {
        hide Shape, Pending, Expected;
        ok := RunSet(lowtic);
        if !ok { return; }
        NetUpdate(clock);
      }
      ok := true;
    }

    /** One turn of the main loop: build, wait until enough is built or time has passed, and run. The
        two internal errors of the loop cannot occur. `built` is what had been built when the number of
        sets to run was decided. */
    method TryRunTics(clock: Clock) returns (outcome: Outcome, ghost built: nat)
      requires Valid()
      modifies this`maketic, this`gametic, this`lasttime, this`skiptics, this`oldEntertics, this`ran, ring, clock
      ensures Valid() && outcome != Error
      ensures old(maketic) <= built <= maketic
      ensures singletics ==> built == Least(old(maketic) + 1, old(gametic) / dup + if newSync then 3 else 5)
      ensures outcome == Waited ==> gametic == old(gametic)
      ensures var t := old(gametic) / dup;
        outcome == Ran ==> gametic / dup == t + Counts(oldEntertics - old(oldEntertics), built - t)
    {
      var now := clock.Now();
      var entertic := now / dup;
      var realtics := entertic - oldEntertics;
      oldEntertics := entertic;
      if singletics {
        var added := BuildNewTic();
      } else {
        NetUpdate(clock);
      }
      built := maketic;
      var counts := Counts(realtics, maketic - gametic / dup);
      var lowtic;
      outcome, lowtic := WaitForTics(clock, counts, entertic);
      if outcome != Ran { return; }
      var ok := RunSets(clock, counts, lowtic);
      if !ok { return Error, built; }
    }
  }

  lemma LateIs(t: nat, dup: nat, entertic: nat)
    requires dup > 0 && t / dup <= entertic
    ensures t < (entertic + 1) * dup
  {
    assert t == (t / dup) * dup + t % dup;
    assert (entertic - t / dup) * dup >= 0;
    assert (entertic + 1) * dup == (t / dup) * dup + (entertic - t / dup) * dup + dup;
  }

  function OnlyPlayer(p: nat, ingame: seq<bool>): seq<bool> {
    seq(|ingame|, i requires 0 <= i < |ingame| => if i == p then ingame[i] else false)
  }

  lemma ClearAlone(p: nat, c: Cmd)
    requires p < PLAYERS
    ensures Alone(p, c).(ingame := OnlyPlayer(p, Alone(p, c).ingame)) == Alone(p, c)
  {
    assert OnlyPlayer(p, Alone(p, c).ingame) == Alone(p, c).ingame;
  }

  lemma AloneShape(p: nat, c: Cmd)
    requires p < PLAYERS
    ensures var s := Alone(p, c);
      |s.cmds| == |s.ingame| == PLAYERS && forall i :: 0 <= i < PLAYERS && i != p ==> s.cmds[i] == EMPTY && !s.ingame[i]
  {
  }

  function SquashAll(cmds: seq<Cmd>): seq<Cmd> {
    seq(|cmds|, i requires 0 <= i < |cmds| => Squash(cmds[i]))
  }

  lemma SquashAlone(p: nat, c: Cmd)
    requires p < PLAYERS
    ensures Alone(p, c).(cmds := SquashAll(Alone(p, c).cmds)) == Alone(p, Squash(c))
  {
    assert SquashAll(Alone(p, c).cmds) == Alone(p, Squash(c)).cmds;
  }

  lemma TicOf(t: nat, i: nat, dup: nat)
    requires i < dup
    ensures (t * dup + i) / dup == t && (t * dup + i) % dup == i
  {
    var q := (t * dup + i) / dup - t;
    var r := (t * dup + i) % dup;
    assert q * dup + r == i;
    assert q >= 1 ==> q * dup >= dup;
    assert q <= -1 ==> q * dup <= 0 - dup;
  }

  lemma WholeSets(g: nat, dup: nat)
    requires dup > 0 && g % dup == 0
    ensures g == g / dup * dup
  {
  }

  lemma NextSet(t: nat, dup: nat)
    requires dup > 0
    ensures (t * dup + dup) / dup == t + 1 && (t * dup + dup) % dup == 0
  {
    TicOf(t + 1, 0, dup);
    assert t * dup + dup == (t + 1) * dup;
  }

  lemma InOrder(t: nat, i: nat, g: nat, dup: nat)
    requires i < dup && g % dup == 0 && t < g / dup
    ensures t * dup + i < g
  {
    var q := g / dup;
    assert g == q * dup + g % dup;
    Multiples(t, q, dup);
  }

  lemma Multiples(t: nat, q: nat, dup: nat)
    requires t < q
    ensures t * dup + dup <= q * dup
  {
    var d := q - t - 1;
    assert q * dup == t * dup + d * dup + dup;
    assert d * dup >= 0;
  }

  /** Tics less than a ring apart have different slots. */
  lemma SlotsDiffer(t: nat, m: nat, n: nat)
    requires t < m < t + n
    ensures t % n != m % n
  {
    var q := m / n - t / n;
    assert m - t == q * n + (m % n - t % n);
    assert q >= 1 ==> q * n >= n;
    assert q <= 0 ==> q * n <= 0;
  }
}
