/**
 * The hero subtitle's typing animation (`initializeTypingAnimation` in js/main.js).
 *
 * The source keeps three closure variables (`currentRole`, `currentChar`,
 * `isDeleting`) and one timer callback that, on every tick, types or deletes one
 * character, writes a prefix of the current role to the subtitle and schedules
 * itself again after a delay taken from `config.typingSpeed`. There are no
 * separate pause states: the long pause at full length and the short pause on an
 * empty subtitle are only longer delays on the ticks that flip `isDeleting`.
 *
 * `Step` is the tick as a function of the state; `TypingAnimation.Tick` is the
 * tick as the source runs it, on mutable fields, and is proved to agree with
 * `Step`. The lemmas state what the animation promises over one or many ticks.
 */
module Typing {

  /** `config.typingSpeed`, in milliseconds. */
  const TypingDelay: nat := 100
  const DeletingDelay: nat := 50
  const PauseDelay: nat := 2000
  const NextRoleDelay: nat := 500

  /** The delay before the very first tick. */
  const StartDelay: nat := 1000

  /** The phrases the subtitle cycles through, in order. */
  const SourceRoles: seq<string> := [
    "AI/ML Engineer.",
    "AI Automation Engineer.",
    "Python Developer.",
    "Building Intelligent Systems With Gen AI.",
    "Responsible AI Advocate."
  ]

  /** A non-empty list of non-empty phrases. */
  predicate WellFormedRoles(roles: seq<string>)
  {
    |roles| > 0 && forall i :: 0 <= i < |roles| ==> |roles[i]| > 0
  }

  /** The closure variables `currentRole`, `currentChar` and `isDeleting`. */
  datatype Cursor = Cursor(role: nat, count: int, deleting: bool)

  /** What one tick produces: the new state, the subtitle text it wrote, the next delay. */
  datatype TickResult = TickResult(next: Cursor, text: string, delay: nat)

  /** JavaScript's `String.prototype.substring` bound clamping to `[0, len]`. */
  function Clamp(k: int, len: nat): (r: nat)
    ensures r <= len
    ensures 0 <= k <= len ==> r == k
  {
    if k < 0 then 0 else if k > len then len else k
  }

  /** `s.substring(start, end)`: both bounds clamped, swapped when out of order. */
  function Substring(s: string, start: int, end: int): (r: string)
    ensures |r| <= |s|
    ensures 0 <= start <= end <= |s| ==> r == s[start..end]
  {
    var a, b := Clamp(start, |s|), Clamp(end, |s|);
    if a <= b then s[a..b] else s[b..a]
  }

  /** One run of the `typeAnimation` callback. */
  function Step(roles: seq<string>, s: Cursor): (r: TickResult)
    requires s.role < |roles|
    ensures r.next.role < |roles|
  {
    var current := roles[s.role];
    var text := if s.deleting then Substring(current, 0, s.count - 1)
                else Substring(current, 0, s.count + 1);
    var count := if s.deleting then s.count - 1 else s.count + 1;
    if !s.deleting && count == |current| then
      TickResult(Cursor(s.role, count, true), text, PauseDelay)
    else if s.deleting && count == 0 then
      TickResult(Cursor((s.role + 1) % |roles|, count, false), text, NextRoleDelay)
    else
      TickResult(Cursor(s.role, count, s.deleting), text,
                 if s.deleting then DeletingDelay else TypingDelay)
  }

  /**
   * The states the animation can be in between ticks: while typing, the subtitle
   * is still short of the whole role; while deleting, it is not yet empty.
   */
  predicate Inv(roles: seq<string>, s: Cursor)
  {
    WellFormedRoles(roles) && s.role < |roles| &&
    if s.deleting then 0 < s.count <= |roles[s.role]|
    else 0 <= s.count < |roles[s.role]|
  }

  /** The state the animation starts in. */
  const Start := Cursor(0, 0, false)

  /**
   * Every tick keeps the role index and the character count in range, and the
   * text it writes is exactly the prefix of the (new) current role that the
   * new character count names.
   */
  lemma StepKeepsInv(roles: seq<string>, s: Cursor)
    requires Inv(roles, s)
    ensures Inv(roles, Step(roles, s).next)
    ensures var r := Step(roles, s);
      0 <= r.next.count <= |roles[r.next.role]| &&
      r.text == roles[r.next.role][..r.next.count]
  {
  }

  /** A typing tick writes exactly one more character of the current role. */
  lemma TypingAddsOne(roles: seq<string>, s: Cursor)
    requires Inv(roles, s) && !s.deleting
    ensures var r := Step(roles, s);
      r.next.count == s.count + 1 && r.next.role == s.role &&
      r.text == roles[s.role][..s.count + 1] && |r.text| == s.count + 1
  {
  }

  /** A deleting tick writes the current role with exactly one character fewer. */
  lemma DeletingRemovesOne(roles: seq<string>, s: Cursor)
    requires Inv(roles, s) && s.deleting
    ensures var r := Step(roles, s);
      r.next.count == s.count - 1 &&
      r.text == roles[s.role][..s.count - 1] && |r.text| == s.count - 1
  {
  }

  /**
   * The four kinds of tick, told apart by the state before it: reaching the full
   * role flips to deleting with the long pause; reaching the empty string moves to
   * the next role (wrapping) with the short pause; otherwise the mode and the role
   * stay and the delay is the typing or the deleting one.
   */
  lemma StepTransitions(roles: seq<string>, s: Cursor)
    requires Inv(roles, s)
    ensures var r := Step(roles, s); var len := |roles[s.role]|;
      (!s.deleting && s.count + 1 == len ==>
         r.next == Cursor(s.role, len, true) && r.delay == PauseDelay) &&
      (!s.deleting && s.count + 1 < len ==>
         r.next == Cursor(s.role, s.count + 1, false) && r.delay == TypingDelay) &&
      (s.deleting && s.count == 1 ==>
         r.next == Cursor((s.role + 1) % |roles|, 0, false) && r.delay == NextRoleDelay) &&
      (s.deleting && s.count > 1 ==>
         r.next == Cursor(s.role, s.count - 1, true) && r.delay == DeletingDelay)
  {
  }

  /** The role index changes only on the tick that empties the subtitle. */
  lemma RoleAdvancesOnlyWhenEmptied(roles: seq<string>, s: Cursor)
    requires Inv(roles, s)
    ensures var r := Step(roles, s);
      r.next.role != s.role ==> s.deleting && s.count == 1 && r.next.count == 0 && r.text == []
  {
  }

  /** The state after `n` ticks. */
  function Run(roles: seq<string>, s: Cursor, n: nat): (r: Cursor)
    requires s.role < |roles|
    ensures r.role < |roles|
    decreases n
  {
    if n == 0 then s else Run(roles, Step(roles, s).next, n - 1)
  }

  lemma {:induction false} RunAdd(roles: seq<string>, s: Cursor, m: nat, n: nat)
    requires s.role < |roles|
    ensures Run(roles, s, m + n) == Run(roles, Run(roles, s, m), n)
    decreases m
  {
    if m > 0 {
      RunAdd(roles, Step(roles, s).next, m - 1, n);
    }
  }

  /** Typing from `k` characters takes `|role| - k` ticks and ends ready to delete the whole role. */
  lemma {:induction false} TypesOut(roles: seq<string>, r: nat, k: int)
    requires Inv(roles, Cursor(r, k, false))
    ensures Run(roles, Cursor(r, k, false), |roles[r]| - k) == Cursor(r, |roles[r]|, true)
    decreases |roles[r]| - k
  {
    var s := Cursor(r, k, false);
    StepTransitions(roles, s);
    if k + 1 < |roles[r]| {
      TypesOut(roles, r, k + 1);
    }
  }

  /** Deleting from `k` characters takes `k` ticks and ends at the start of the next role. */
  lemma {:induction false} DeletesOut(roles: seq<string>, r: nat, k: int)
    requires Inv(roles, Cursor(r, k, true))
    ensures Run(roles, Cursor(r, k, true), k) == Cursor((r + 1) % |roles|, 0, false)
    decreases k
  {
    var s := Cursor(r, k, true);
    StepTransitions(roles, s);
    if k > 1 {
      DeletesOut(roles, r, k - 1);
    }
  }

  /** One role takes exactly twice its length in ticks, from empty back to empty on the next role. */
  lemma {:induction false} RoleCycle(roles: seq<string>, r: nat)
    requires WellFormedRoles(roles) && r < |roles|
    ensures Run(roles, Cursor(r, 0, false), 2 * |roles[r]|) == Cursor((r + 1) % |roles|, 0, false)
  {
    var len := |roles[r]|;
    RunAdd(roles, Cursor(r, 0, false), len, len);
    TypesOut(roles, r, 0);
    DeletesOut(roles, r, len);
  }

  /** The ticks needed to type and delete the `m` roles that follow on from role `r`. */
  function CycleTicks(roles: seq<string>, r: nat, m: nat): nat
    requires r < |roles|
    decreases m
  {
    if m == 0 then 0 else 2 * |roles[r]| + CycleTicks(roles, (r + 1) % |roles|, m - 1)
  }

  /** The role after `r`, as the tick computes it with `%`: the next one, or the first after the last. */
  lemma NextRoleWraps(r: nat, n: nat)
    requires r < n
    ensures (r + 1) % n == if r + 1 == n then 0 else r + 1
  {
  }

  /** The role reached from `r` after `m` advances through a list of `n` roles. */
  function Advance(r: nat, m: nat, n: nat): (k: nat)
    requires r < n
    ensures k < n
    decreases m
  {
    if m == 0 then r else Advance(if r + 1 == n then 0 else r + 1, m - 1, n)
  }

  lemma {:induction false} AdvanceAdd(r: nat, m: nat, p: nat, n: nat)
    requires r < n
    ensures Advance(r, m + p, n) == Advance(Advance(r, m, n), p, n)
    decreases m
  {
    if m > 0 {
      AdvanceAdd(if r + 1 == n then 0 else r + 1, m - 1, p, n);
    }
  }

  lemma {:induction false} AdvanceBelowEnd(r: nat, m: nat, n: nat)
    requires r + m < n
    ensures Advance(r, m, n) == r + m
    decreases m
  {
    if m > 0 {
      AdvanceBelowEnd(r + 1, m - 1, n);
    }
  }

  /** `n` advances through `n` roles come back to the role they started from. */
  lemma AdvanceFullCycle(r: nat, n: nat)
    requires r < n
    ensures Advance(r, n, n) == r
  {
    AdvanceAdd(r, n - r - 1, r + 1, n);
    AdvanceBelowEnd(r, n - r - 1, n);
    assert Advance(n - 1, 1, n) == 0;
    AdvanceAdd(n - 1, 1, r, n);
    if r > 0 {
      AdvanceBelowEnd(0, r, n);
    }
  }

  /**
   * The roles are visited one after another in list order, wrapping after the
   * last: after the ticks of `m` whole roles starting from role `r` the animation
   * is at the start of the role `m` places further on; after `|roles|` roles it is
   * back where it began.
   */
  lemma {:induction false} VisitsRolesInOrder(roles: seq<string>, r: nat, m: nat)
    requires WellFormedRoles(roles) && r < |roles|
    ensures Run(roles, Cursor(r, 0, false), CycleTicks(roles, r, m)) == Cursor(Advance(r, m, |roles|), 0, false)
    ensures m == |roles| ==> Run(roles, Cursor(r, 0, false), CycleTicks(roles, r, m)) == Cursor(r, 0, false)
    decreases m
  {
    if m > 0 {
      var next := (r + 1) % |roles|;
      NextRoleWraps(r, |roles|);
      var len := |roles[r]|;
      RunAdd(roles, Cursor(r, 0, false), 2 * len, CycleTicks(roles, next, m - 1));
      RoleCycle(roles, r);
      VisitsRolesInOrder(roles, next, m - 1);
    }
    if m == |roles| {
      AdvanceFullCycle(r, |roles|);
    }
  }

  /**
   * The animation bound to the subtitle element: the closure variables as
   * fields, and the subtitle's text content.
   */
  class TypingAnimation {
    const roles: seq<string>
    var currentRole: nat
    var currentChar: int
    var isDeleting: bool
    var text: string

    ghost predicate Valid()
      reads this
    {
      Inv(roles, State())
    }

    function State(): Cursor
      reads this
    {
      Cursor(currentRole, currentChar, isDeleting)
    }

    /** Sets up the closure variables; the subtitle keeps its text until the first tick. */
    constructor (subtitleText: string)
      ensures Valid() && roles == SourceRoles
      ensures State() == Start && text == subtitleText
    {
      roles := SourceRoles;
      currentRole, currentChar, isDeleting := 0, 0, false;
      text := subtitleText;
    }

    /** One timer callback; returns the delay after which the next one is scheduled. */
    method Tick() returns (delay: nat)
      requires Valid()
      modifies this
      ensures Valid()
      ensures var r := Step(roles, old(State()));
        State() == r.next && text == r.text && delay == r.delay
      ensures text == roles[currentRole][..currentChar]
    {
      StepKeepsInv(roles, State());
      var current := roles[currentRole];
      if isDeleting {
        text := Substring(current, 0, currentChar - 1);
        currentChar := currentChar - 1;
      } else {
        text := Substring(current, 0, currentChar + 1);
        currentChar := currentChar + 1;
      }
      var speed := if isDeleting then DeletingDelay else TypingDelay;
      if !isDeleting && currentChar == |current| {
        speed := PauseDelay;
        isDeleting := true;
      } else if isDeleting && currentChar == 0 {
        isDeleting := false;
        currentRole := (currentRole + 1) % |roles|;
        speed := NextRoleDelay;
      }
      delay := speed;
    }
  }
}
