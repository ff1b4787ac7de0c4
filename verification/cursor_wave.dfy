/**
  The ocean cursor-wave effect: every pointer sample is compared with the
  previously recorded position; a displacement above 5 marks the pointer as
  moving, and one above 15 spawns a wave ring at the sample. The wave buffer
  keeps at most six rings, and a periodic sweep drops rings older than 1500 ms.
 */
module CursorWave {

  /**
    A wave ring. Its id is the clock reading (whole ms) at which it was
    spawned plus a random fraction in [0, 1) that keeps ids apart.
   */
  datatype Wave = Wave(id: real, x: real, y: real)

  /** Displacement above which the pointer counts as moving. */
  const MovingThreshold: real := 5.0
  /** Displacement above which a sample spawns a wave. */
  const SpawnThreshold: real := 15.0
  /** Number of previous waves a spawn keeps (`prev.slice(-5)`). */
  const KeptOnSpawn: nat := 5
  /** Largest number of waves the buffer ever holds. */
  const MaxWaves: nat := 6
  /** Age (ms) from which the sweep removes a wave. */
  const LifetimeMs: int := 1500

  /** The id a wave spawned at clock reading `now` gets, for a random `fraction` in [0, 1). */
  function WaveId(now: int, fraction: real): (id: real)
    requires 0.0 <= fraction < 1.0
    ensures now as real <= id < (now + 1) as real
  {
    now as real + fraction
  }

  // ---------------------------------------------------------------------------
  // Displacement
  // ---------------------------------------------------------------------------

  /** Square of the Euclidean distance between the recorded position and a new sample. */
  function SquaredDisplacement(fromX: real, fromY: real, toX: real, toY: real): (d2: real)
    ensures d2 >= 0.0
    ensures fromX == toX && fromY == toY ==> d2 == 0.0
  {
    var dx := toX - fromX;
    var dy := toY - fromY;
    dx * dx + dy * dy
  }

  /**
    The source compares the square root of the squared displacement with the
    thresholds; for a non-negative speed and threshold that is the same as
    comparing the squares, which is what the model does.
   */
  lemma SpeedExceedsIffSquareExceeds(speed: real, k: real)
    requires speed >= 0.0 && k >= 0.0
    ensures speed > k <==> speed * speed > k * k
  {
    if speed > k {
      SquareStrictlyMonotone(k, speed);
    } else {
      SquareMonotone(speed, k);
    }
  }

  /** Squaring is strictly increasing on non-negative reals. */
  lemma SquareStrictlyMonotone(a: real, b: real)
    requires 0.0 <= a < b
    ensures a * a < b * b
  {
    var m := a * b;
    assert a * a <= m;
    assert m < b * b;
    assert a * a < b * b;
  }

  /** Squaring is monotone on non-negative reals. */
  lemma SquareMonotone(a: real, b: real)
    requires 0.0 <= a <= b
    ensures a * a <= b * b
  {
    var m := a * b;
    assert a * a <= m;
    assert m <= b * b;
    assert a * a <= b * b;
  }

  /** The sample moves the pointer: its displacement exceeds 5. */
  predicate Moves(d2: real) {
    d2 > MovingThreshold * MovingThreshold
  }

  /** The sample spawns a wave: its displacement exceeds 15. */
  predicate Spawns(d2: real) {
    d2 > SpawnThreshold * SpawnThreshold
  }

  /** Every sample that spawns a wave also marks the pointer as moving. */
  lemma SpawningSampleMoves(d2: real)
    ensures Spawns(d2) ==> Moves(d2)
    ensures d2 == 100.0 ==> Moves(d2) && !Spawns(d2)
  {
  }

  // ---------------------------------------------------------------------------
  // Bounded append: `[...prev.slice(-5), newWave]`
  // ---------------------------------------------------------------------------

  /**
    `s.slice(-n)`: the last `n` elements of `s`, or all of `s` when it is
    shorter. As in JavaScript, `-0` is `0`, so `n = 0` keeps all of `s`.
   */
  function LastN(s: seq<Wave>, n: nat): (r: seq<Wave>)
    ensures |r| == if n == 0 || |s| < n then |s| else n
    ensures r == s[|s| - |r|..]
  {
    if n == 0 || |s| <= n then s else s[|s| - n..]
  }

  /** The wave buffer after spawning `w`. */
  function Spawn(prev: seq<Wave>, w: Wave): (r: seq<Wave>)
    ensures 1 <= |r| <= MaxWaves
    ensures r[|r| - 1] == w
    ensures |r| == if |prev| < KeptOnSpawn then |prev| + 1 else KeptOnSpawn + 1
    ensures r[..|r| - 1] == prev[|prev| - (|r| - 1)..]
  {
    var kept := LastN(prev, KeptOnSpawn);
    assert (kept + [w])[..|kept|] == kept;
    kept + [w]
  }

  /** A spawn on a buffer with room keeps every earlier wave. */
  lemma SpawnBelowBoundKeepsAll(prev: seq<Wave>, w: Wave)
    requires |prev| <= KeptOnSpawn
    ensures Spawn(prev, w) == prev + [w]
  {
    var r := Spawn(prev, w);
    assert r[..|r| - 1] == prev;
    assert r == r[..|r| - 1] + [r[|r| - 1]];
  }

  /** A spawn on a full buffer drops exactly its oldest waves and keeps the rest in order. */
  lemma SpawnOnFullDropsOldest(prev: seq<Wave>, w: Wave)
    requires |prev| >= KeptOnSpawn
    ensures Spawn(prev, w) == prev[|prev| - KeptOnSpawn..] + [w]
  {
    var r := Spawn(prev, w);
    assert r == r[..|r| - 1] + [r[|r| - 1]];
  }

  /** The buffer after spawning each of `ws` in turn. */
  function SpawnAll(buf: seq<Wave>, ws: seq<Wave>): (r: seq<Wave>)
    ensures ws == [] ==> r == buf
    ensures ws != [] ==> 1 <= |r| <= MaxWaves && r[|r| - 1] == ws[|ws| - 1]
    decreases |ws|
  {
    if ws == [] then buf
    else
      var rest := ws[1..];
      assert rest != [] ==> rest[|rest| - 1] == ws[|ws| - 1];
      SpawnAll(Spawn(buf, ws[0]), rest)
  }

  /** Keeping the last `n` of a sequence and then of an extension of it is keeping the last `n` once. */
  lemma LastNOfExtension(s: seq<Wave>, t: seq<Wave>, n: nat)
    ensures LastN(LastN(s, n) + t, n) == LastN(s + t, n)
  {
    var k := LastN(s, n);
    var l, m := LastN(k + t, n), LastN(s + t, n);
    assert |l| == |m|;
    forall i | 0 <= i < |l| ensures l[i] == m[i] {
      if |k + t| - |l| + i >= |k| {
        assert l[i] == t[|k + t| - |l| + i - |k|];
      } else {
        assert l[i] == k[|k + t| - |l| + i];
      }
    }
  }

  /** Spawning one wave keeps the six newest of the old buffer followed by the new wave. */
  lemma SpawnKeepsNewest(buf: seq<Wave>, w: Wave)
    ensures Spawn(buf, w) == LastN(buf + [w], MaxWaves)
  {
    var r, l := Spawn(buf, w), LastN(buf + [w], MaxWaves);
    assert |r| == |l|;
    forall i | 0 <= i < |r| ensures r[i] == l[i] {
      if i < |r| - 1 {
        assert r[i] == r[..|r| - 1][i];
      }
    }
  }

  /** After any run of spawns the buffer holds exactly the six newest waves, in spawn order. */
  lemma {:induction false} SpawnAllKeepsNewest(buf: seq<Wave>, ws: seq<Wave>)
    requires ws != []
    ensures SpawnAll(buf, ws) == LastN(buf + ws, MaxWaves)
    decreases |ws|
  {
    SpawnKeepsNewest(buf, ws[0]);
    assert buf + ws == buf + [ws[0]] + ws[1..];
    if ws[1..] == [] {
      assert buf + ws == buf + [ws[0]];
    } else {
      SpawnAllKeepsNewest(Spawn(buf, ws[0]), ws[1..]);
      LastNOfExtension(buf + [ws[0]], ws[1..], MaxWaves);
    }
  }

  /**
    Seven spawns at 0, 100, ..., 600 ms into an empty buffer (each id within
    its millisecond): the seventh evicts the first even though the first is
    far from its 1500 ms lifetime.
   */
  lemma SevenSpawnsEvictFirst(ws: seq<Wave>)
    requires |ws| == 7
    requires forall i :: 0 <= i < |ws| ==> 100.0 * i as real <= ws[i].id < 100.0 * i as real + 1.0
    ensures SpawnAll([], ws) == ws[1..]
    ensures Sweep(SpawnAll([], ws), 600) == ws[1..]
    ensures Alive(ws[0], 600) && ws[0] !in SpawnAll([], ws)
  {
    SpawnAllKeepsNewest([], ws);
    assert [] + ws == ws;
    var rest := ws[1..];
    EarlyWavesAlive(ws, rest);
    SweepKeepsAllAlive(rest, 600);
  }

  /** In that scenario every wave is alive at 600 ms and the first one's id is below all later ids. */
  lemma EarlyWavesAlive(ws: seq<Wave>, rest: seq<Wave>)
    requires |ws| == 7 && rest == ws[1..]
    requires forall i :: 0 <= i < |ws| ==> 100.0 * i as real <= ws[i].id < 100.0 * i as real + 1.0
    ensures Alive(ws[0], 600)
    ensures forall i :: 0 <= i < |rest| ==> Alive(rest[i], 600)
    ensures ws[0] !in rest
  {
    forall i | 0 <= i < |rest| ensures Alive(rest[i], 600) && rest[i] != ws[0] {
      var j := i + 1;
      assert rest[i] == ws[j];
      assert 100.0 * j as real <= ws[j].id < 100.0 * j as real + 1.0;
      assert 1.0 <= j as real <= 6.0;
    }
  }

  // ---------------------------------------------------------------------------
  // Sweep: `prev.filter((wave) => Date.now() - wave.id < 1500)`
  // ---------------------------------------------------------------------------

  /** A wave survives a sweep at clock reading `now` while it is younger than its lifetime. */
  predicate Alive(w: Wave, now: int) {
    now as real - w.id < LifetimeMs as real
  }

  /**
    Because the id carries the random fraction, a wave spawned at `t` is
    always kept by a sweep up to `t + 1499`, kept at exactly `t + 1500` iff
    its fraction is positive, and dropped from `t + 1501` on.
   */
  lemma AliveAtLifetime(t: int, fraction: real, x: real, y: real, now: int)
    requires 0.0 <= fraction < 1.0
    ensures now < t + LifetimeMs ==> Alive(Wave(WaveId(t, fraction), x, y), now)
    ensures now == t + LifetimeMs ==> (Alive(Wave(WaveId(t, fraction), x, y), now) <==> fraction > 0.0)
    ensures now > t + LifetimeMs ==> !Alive(Wave(WaveId(t, fraction), x, y), now)
  {
  }

  /** The buffer after a sweep at time `now`: the surviving waves, in order. */
  function Sweep(waves: seq<Wave>, now: int): (r: seq<Wave>)
    ensures |r| <= |waves|
    ensures forall w :: w in r ==> w in waves && Alive(w, now)
  {
    if waves == [] then []
    else if Alive(waves[0], now) then [waves[0]] + Sweep(waves[1..], now)
    else Sweep(waves[1..], now)
  }

  /** A wave is in the swept buffer exactly when it was in the buffer and is still alive. */
  lemma {:induction false} SweepMembership(waves: seq<Wave>, now: int, w: Wave)
    ensures w in Sweep(waves, now) <==> w in waves && Alive(w, now)
  {
    if waves != [] {
      SweepMembership(waves[1..], now, w);
      assert waves == [waves[0]] + waves[1..];
    }
  }

  /** Sweeping distributes over concatenation, so it keeps the survivors in their order. */
  lemma {:induction false} SweepAppend(a: seq<Wave>, b: seq<Wave>, now: int)
    ensures Sweep(a + b, now) == Sweep(a, now) + Sweep(b, now)
  {
    if a == [] {
      assert a + b == b;
    } else {
      assert (a + b)[0] == a[0];
      assert (a + b)[1..] == a[1..] + b;
      SweepAppend(a[1..], b, now);
    }
  }

  /** A sweep that finds every wave alive leaves the buffer unchanged. */
  lemma {:induction false} SweepKeepsAllAlive(waves: seq<Wave>, now: int)
    requires forall i :: 0 <= i < |waves| ==> Alive(waves[i], now)
    ensures Sweep(waves, now) == waves
  {
    if waves != [] {
      SweepKeepsAllAlive(waves[1..], now);
      assert waves == [waves[0]] + waves[1..];
    }
  }

  /** Sweeping twice at the same time is the same as sweeping once. */
  lemma {:induction false} SweepIdempotent(waves: seq<Wave>, now: int)
    ensures Sweep(Sweep(waves, now), now) == Sweep(waves, now)
  {
    var r := Sweep(waves, now);
    forall i | 0 <= i < |r| ensures Alive(r[i], now) {
      assert r[i] in r;
    }
    SweepKeepsAllAlive(r, now);
  }

  /**
    Ids never decrease along the buffer. Spawns in later milliseconds keep
    this (`SpawnKeepsIdsNonDecreasing`), but two spawns within one
    millisecond draw random fractions in either order and need not.
   */
  predicate IdsNonDecreasing(waves: seq<Wave>) {
    forall i, j :: 0 <= i < j < |waves| ==> waves[i].id <= waves[j].id
  }

  /**
    On a buffer whose ids never decrease the sweep removes a prefix: the waves it keeps
    are the newest ones, and everything before them has expired.
   */
  lemma {:induction false} SweepOfOrderedIsSuffix(waves: seq<Wave>, now: int)
    requires IdsNonDecreasing(waves)
    ensures Sweep(waves, now) == waves[|waves| - |Sweep(waves, now)|..]
    ensures forall i :: 0 <= i < |waves| - |Sweep(waves, now)| ==> !Alive(waves[i], now)
  {
    if waves != [] {
      if Alive(waves[0], now) {
        SweepKeepsAllAlive(waves, now);
      } else {
        SweepOfOrderedIsSuffix(waves[1..], now);
      }
    }
  }

  /** A spawn whose id is at least every id in the buffer keeps ids non-decreasing. */
  lemma SpawnKeepsIdsNonDecreasing(prev: seq<Wave>, w: Wave)
    requires IdsNonDecreasing(prev)
    requires forall i :: 0 <= i < |prev| ==> prev[i].id <= w.id
    ensures IdsNonDecreasing(Spawn(prev, w))
  {
    var kept := LastN(prev, KeptOnSpawn);
    SuffixKeepsIdsNonDecreasing(prev, |prev| - |kept|, kept, w);
    AppendLargestKeepsIdsNonDecreasing(kept, w);
    assert Spawn(prev, w) == kept + [w];
  }

  /** A suffix of a buffer with non-decreasing ids, all at most `w.id`, keeps both properties. */
  lemma SuffixKeepsIdsNonDecreasing(prev: seq<Wave>, d: nat, kept: seq<Wave>, w: Wave)
    requires d <= |prev| && kept == prev[d..]
    requires IdsNonDecreasing(prev)
    requires forall i :: 0 <= i < |prev| ==> prev[i].id <= w.id
    ensures IdsNonDecreasing(kept)
    ensures forall i :: 0 <= i < |kept| ==> kept[i].id <= w.id
  {
    forall i, j | 0 <= i < j < |kept| ensures kept[i].id <= kept[j].id {
      assert kept[i] == prev[d + i] && kept[j] == prev[d + j];
    }
    forall i | 0 <= i < |kept| ensures kept[i].id <= w.id {
      assert kept[i] == prev[d + i];
    }
  }

  /** Appending a wave whose id is at least every id keeps ids non-decreasing. */
  lemma AppendLargestKeepsIdsNonDecreasing(waves: seq<Wave>, w: Wave)
    requires IdsNonDecreasing(waves)
    requires forall i :: 0 <= i < |waves| ==> waves[i].id <= w.id
    ensures IdsNonDecreasing(waves + [w])
  {
    var r := waves + [w];
    forall i, j | 0 <= i < j < |r| ensures r[i].id <= r[j].id {
      assert r[i] == waves[i];
      if j < |waves| {
        assert r[j] == waves[j];
      }
    }
  }

  /**
    A spawn at a clock reading later than every id in the buffer has the
    largest id, whatever its random fraction.
   */
  lemma LaterSpawnHasLargestId(prev: seq<Wave>, now: int, fraction: real, x: real, y: real)
    requires 0.0 <= fraction < 1.0
    requires forall i :: 0 <= i < |prev| ==> prev[i].id < now as real
    ensures forall i :: 0 <= i < |prev| ==> prev[i].id <= Wave(WaveId(now, fraction), x, y).id
  {
  }

  // ---------------------------------------------------------------------------
  // The component state
  // ---------------------------------------------------------------------------

  /** The state of one cursor-wave effect: recorded pointer position, moving flag and wave buffer. */
  class CursorWaveState {
    var mouseX: real
    var mouseY: real
    var isMoving: bool
    var waves: seq<Wave>

    /** The buffer never holds more than six waves. */
    ghost predicate Valid()
      reads this
    {
      |waves| <= MaxWaves
    }

    constructor ()
      ensures Valid()
      ensures mouseX == 0.0 && mouseY == 0.0 && !isMoving && waves == []
    {
      mouseX, mouseY := 0.0, 0.0;
      isMoving := false;
      waves := [];
    }

    /**
      The pointer-move handler, for a sample at (newX, newY) taken at clock
      reading `now`; `fraction` is the `Math.random()` draw for a new wave's id.
     */
    method MouseMove(newX: real, newY: real, now: int, fraction: real)
      requires Valid()
      requires 0.0 <= fraction < 1.0
      modifies this
      ensures Valid()
      ensures mouseX == newX && mouseY == newY
      ensures isMoving == Moves(SquaredDisplacement(old(mouseX), old(mouseY), newX, newY))
      ensures Spawns(SquaredDisplacement(old(mouseX), old(mouseY), newX, newY)) ==>
                isMoving && waves == Spawn(old(waves), Wave(WaveId(now, fraction), newX, newY))
      ensures !Spawns(SquaredDisplacement(old(mouseX), old(mouseY), newX, newY)) ==>
                waves == old(waves)
    {
      var d2 := SquaredDisplacement(mouseX, mouseY, newX, newY);
      mouseX, mouseY := newX, newY;
      isMoving := Moves(d2);
      if Spawns(d2) {
        waves := Spawn(waves, Wave(WaveId(now, fraction), newX, newY));
      }
    }

    /** The periodic clean-up callback, run at time `now`. */
    method SweepWaves(now: int)
      requires Valid()
      modifies this
      ensures Valid()
      ensures waves == Sweep(old(waves), now)
      ensures mouseX == old(mouseX) && mouseY == old(mouseY) && isMoving == old(isMoving)
    {
      waves := Sweep(waves, now);
    }
  }
}
