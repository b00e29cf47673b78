/** The effect selection at the top of each pass of main's loop. rand() is an oracle: the
    results it hands to the selection, in order. */
module Selection {

  /** Number of effects; effect 0 is "lights out". */
  const EFFECTS: nat := 6

  /** What one selection leaves behind: the new current_effect and next_effect, and how many
      draws of rand() it used; or the oracle ran out before a different effect came up. */
  datatype Pick = Picked(current: int, next: int, used: nat) | OutOfDraws

  /** The effect a draw of rand() proposes: 1 + rand() % (EFFECTS - 1). */
  function Proposed(d: nat): (e: int)
    ensures 1 <= e < EFFECTS
  {
    1 + d % (EFFECTS - 1)
  }

  /** With the lights scheduled on, resample while next_effect equals current_effect, then make
      it current; with them off, both become 0. */
  method SelectEffect(lightsOn: bool, current: int, next: int, draws: seq<nat>) returns (r: Pick)
    ensures !lightsOn ==> r == Picked(0, 0, 0)
    ensures lightsOn && next != current ==> r == Picked(next, next, 0)
    ensures lightsOn && next == current ==>
      (r.OutOfDraws? <==> forall k :: 0 <= k < |draws| ==> Proposed(draws[k]) == current)
    ensures lightsOn && next == current && r.Picked? ==>
      && 1 <= r.used <= |draws| && r.current == r.next == Proposed(draws[r.used - 1])
      && 1 <= r.current < EFFECTS && r.current != current
      && forall k :: 0 <= k < r.used - 1 ==> Proposed(draws[k]) == current
  {
    if lightsOn {
      var candidate := next;
      var used := 0;
      while candidate == current && used < |draws|
        invariant 0 <= used <= |draws|
        invariant forall k :: 0 <= k < used ==> Proposed(draws[k]) == current || k == used - 1
        invariant used > 0 ==> candidate == Proposed(draws[used - 1])
        invariant used == 0 ==> candidate == next
        invariant next != current ==> used == 0
        invariant used > 0 && candidate == current ==> forall k :: 0 <= k < used ==> Proposed(draws[k]) == current
      {
        candidate := 1 + draws[used] % (EFFECTS - 1);
        used := used + 1;
      }
      if candidate == current {
        r := OutOfDraws;
      } else {
        r := Picked(candidate, candidate, used);
      }
    } else {
      r := Picked(0, 0, 0);
    }
  }

  /** The passes of main's loop: pass i sees whether the schedule is on (lightsOn[i]) and picks
      the effect it runs. Stops early only when the oracle runs out. */
  method RunMainLoop(lightsOn: seq<bool>, draws: seq<nat>) returns (effects: seq<int>, used: nat)
    ensures |effects| <= |lightsOn| && used <= |draws|
    ensures |effects| < |lightsOn| ==> lightsOn[|effects|] && forall k :: used <= k < |draws| ==> Proposed(draws[k]) == (if |effects| == 0 then 0 else effects[|effects| - 1])
    ensures forall i :: 0 <= i < |effects| ==> (effects[i] == 0 <==> !lightsOn[i])
    ensures forall i :: 0 <= i < |effects| ==> 0 <= effects[i] < EFFECTS
    ensures forall i :: 0 < i < |effects| && lightsOn[i] ==> effects[i] != effects[i - 1]
    ensures |effects| > 0 && lightsOn[0] ==> effects[0] != 0
  {
    var currentEffect := 0;
    var nextEffect := 0;
    effects := [];
    used := 0;
    var i := 0;
    while i < |lightsOn|
      invariant 0 <= i <= |lightsOn| && |effects| == i && used <= |draws|
      invariant currentEffect == nextEffect == (if i == 0 then 0 else effects[i - 1])
      invariant forall k :: 0 <= k < i ==> (effects[k] == 0 <==> !lightsOn[k])
      invariant forall k :: 0 <= k < i ==> 0 <= effects[k] < EFFECTS
      invariant forall k :: 0 < k < i && lightsOn[k] ==> effects[k] != effects[k - 1]
      invariant i > 0 && lightsOn[0] ==> effects[0] != 0
    {
      var pick := SelectEffect(lightsOn[i], currentEffect, nextEffect, draws[used..]);
      if pick.OutOfDraws? {
        forall k | used <= k < |draws| ensures Proposed(draws[k]) == currentEffect {
          assert draws[used..][k - used] == draws[k];
        }
        return;
      }
      currentEffect, nextEffect := pick.current, pick.next;
      used := used + pick.used;
      effects := effects + [currentEffect];
      i := i + 1;
    }
  }
}

/** test.cpp's main: next_effect is reset to 0 before resampling rand() % EFFECTS, so every pass
    after an effect runs effect 0, and every pass after effect 0 runs one of 1, 2, 3. */
module TestProgram {

  const TEST_EFFECTS: nat := 4

  /** The selection of one pass: the next effect and how many draws it used, or none when the
      oracle ran out. */
  datatype TestPick = TestPicked(effect: int, used: nat) | TestOutOfDraws

  method SelectTestEffect(current: int, draws: seq<nat>) returns (r: TestPick)
    ensures current != 0 ==> r == TestPicked(0, 0)
    ensures r.TestPicked? ==> r.used <= |draws|
    ensures current == 0 ==> (r.TestOutOfDraws? <==> forall k :: 0 <= k < |draws| ==> draws[k] % TEST_EFFECTS == 0)
    ensures current == 0 && r.TestPicked? ==>
      && 1 <= r.used <= |draws| && r.effect == draws[r.used - 1] % TEST_EFFECTS
      && 1 <= r.effect < TEST_EFFECTS
      && forall k :: 0 <= k < r.used - 1 ==> draws[k] % TEST_EFFECTS == 0
  {
    var next := 0;
    var used := 0;
    while next == current && used < |draws|
      invariant 0 <= used <= |draws|
      invariant used == 0 ==> next == 0
      invariant used > 0 ==> next == draws[used - 1] % TEST_EFFECTS && current == 0
      invariant forall k :: 0 <= k < used - 1 ==> draws[k] % TEST_EFFECTS == 0
      invariant next == current ==> forall k :: 0 <= k < used ==> draws[k] % TEST_EFFECTS == 0
    {
      next := draws[used] % TEST_EFFECTS;
      used := used + 1;
    }
    if next == current {
      r := TestOutOfDraws;
    } else {
      r := TestPicked(next, used);
    }
  }

  /** The passes of test.cpp's main, from current_effect 0: effect 0 runs on exactly the odd
      passes, and an even pass runs one of 1, 2, 3. */
  method RunTestLoop(passes: nat, draws: seq<nat>) returns (effects: seq<int>)
    ensures |effects| <= passes
    ensures |effects| < passes ==> |effects| % 2 == 0
    ensures forall i :: 0 <= i < |effects| ==> (effects[i] == 0 <==> i % 2 == 1)
    ensures forall i :: 0 <= i < |effects| ==> 0 <= effects[i] < TEST_EFFECTS
    ensures forall i :: 0 < i < |effects| ==> effects[i] != effects[i - 1]
  {
    var currentEffect := 0;
    var used: nat := 0;
    effects := [];
    while |effects| < passes
      invariant |effects| <= passes && used <= |draws|
      invariant currentEffect == (if |effects| == 0 then 0 else effects[|effects| - 1])
      invariant forall i :: 0 <= i < |effects| ==> (effects[i] == 0 <==> i % 2 == 1)
      invariant forall i :: 0 <= i < |effects| ==> 0 <= effects[i] < TEST_EFFECTS
      invariant forall i :: 0 < i < |effects| ==> effects[i] != effects[i - 1]
      decreases passes - |effects|
    {
      var pick := SelectTestEffect(currentEffect, draws[used..]);
      if pick.TestOutOfDraws? {
        return;
      }
      currentEffect := pick.effect;
      used := used + pick.used;
      effects := effects + [currentEffect];
    }
  }
}
