/** The typing effect of the hero subtitle (`setupTypingEffect` and its inner
    `type` in scripts/main.js).

    The source keeps three mutable variables and re-arms itself with
    `setTimeout(type, typeSpeed)`.  Here the three variables are a
    `TypingState`, one call of `type` is the pure function `Step`, and the
    timer is replaced by the delay that `Step` returns. */
module Typing {

  /** The fixed list of roles the subtitle cycles through. */
  const Roles: seq<string> := [
    "Full Stack Developer",
    ".NET Developer",
    "Web Developer",
    "Software Engineer",
    "Problem Solver"
  ]

  /** Delays, in milliseconds, chosen at the end of a step. */
  const TypeDelay: nat := 100
  const DeleteDelay: nat := 50
  const FullWordDelay: nat := 2000
  const NextRoleDelay: nat := 500

  /** What the source relies on without checking: at least one role, and no
      empty role. */
  predicate ValidRoles(roles: seq<string>) {
    |roles| > 0 && forall i :: 0 <= i < |roles| ==> |roles[i]| > 0
  }

  datatype TypingState = TypingState(roleIndex: nat, charIndex: int, deleting: bool)

  /** One call of `type`: the state it leaves behind, the text it writes into
      the subtitle, and the delay before the next call. */
  datatype Tick = Tick(next: TypingState, text: string, delay: nat)

  /** The state `setupTypingEffect` starts from. */
  const Start: TypingState := TypingState(0, 0, false)

  /** `s.substring(0, end)` in JavaScript: `end` is clamped into [0, |s|]. */
  function Prefix(s: string, end: int): (r: string)
    ensures r <= s
    ensures 0 <= end <= |s| ==> |r| == end
    ensures end < 0 ==> r == []
    ensures end > |s| ==> r == s
  {
    if end < 0 then [] else if end > |s| then s else s[..end]
  }

  /** The states reachable from `Start`: the role index is in range, the
      character index lies within the current role, a deleting step always
      has a character left to delete, and a typing step always has one left
      to type. */
  predicate Invariant(roles: seq<string>, s: TypingState) {
    && s.roleIndex < |roles|
    && 0 <= s.charIndex <= |roles[s.roleIndex]|
    && (s.deleting ==> s.charIndex >= 1)
    && (!s.deleting ==> s.charIndex < |roles[s.roleIndex]|)
  }

  /** One call of `type`.  The character index moves by one in the
      direction of the phase.  Typing flips to deleting exactly when the whole
      role is shown, and pauses long; deleting flips to typing exactly when
      nothing is left, moving on to the next role.  Any other step keeps the
      role and phase and uses the phase's speed.  From a reachable state the
      text shown is the prefix of the role the step began on, as long as the
      new character index. */
  function Step(roles: seq<string>, s: TypingState): (t: Tick)
    requires s.roleIndex < |roles|
    ensures t.next.charIndex == (if s.deleting then s.charIndex - 1 else s.charIndex + 1)
    ensures t.next.roleIndex < |roles|
    ensures !s.deleting ==> (t.next.deleting <==> t.next.charIndex == |roles[s.roleIndex]|)
    ensures !s.deleting && t.next.deleting ==> t.delay == FullWordDelay
    ensures s.deleting ==> (!t.next.deleting <==> t.next.charIndex == 0)
    ensures s.deleting && !t.next.deleting ==>
              t.next.roleIndex == (s.roleIndex + 1) % |roles| && t.delay == NextRoleDelay && t.text == []
    ensures !(s.deleting && !t.next.deleting) ==> t.next.roleIndex == s.roleIndex
    ensures t.next.deleting == s.deleting ==>
              t.next.roleIndex == s.roleIndex && t.delay == (if s.deleting then DeleteDelay else TypeDelay)
  {
    var role := roles[s.roleIndex];
    var c := if s.deleting then s.charIndex - 1 else s.charIndex + 1;
    var text := Prefix(role, c);
    if !s.deleting && c == |role| then
      Tick(TypingState(s.roleIndex, c, true), text, FullWordDelay)
    else if s.deleting && c == 0 then
      Tick(TypingState((s.roleIndex + 1) % |roles|, c, false), text, NextRoleDelay)
    else
      Tick(TypingState(s.roleIndex, c, s.deleting), text, if s.deleting then DeleteDelay else TypeDelay)
  }

  /** A step from a reachable state shows the prefix of the role it began on,
      as long as the new character index, and reaches a reachable state. */
  lemma StepKeepsInvariant(roles: seq<string>, s: TypingState)
    requires ValidRoles(roles) && Invariant(roles, s)
    ensures Step(roles, s).text == roles[s.roleIndex][..Step(roles, s).next.charIndex]
    ensures Invariant(roles, Step(roles, s).next)
  {
  }

  /** The state after `n` calls of `type`. */
  function Run(roles: seq<string>, s: TypingState, n: nat): (r: TypingState)
    requires s.roleIndex < |roles|
    ensures r.roleIndex < |roles|
    decreases n
  {
    if n == 0 then s else Run(roles, Step(roles, s).next, n - 1)
  }

  /** The sum of the delays of `n` calls of `type`: how long they take. */
  function Elapsed(roles: seq<string>, s: TypingState, n: nat): nat
    requires s.roleIndex < |roles|
    decreases n
  {
    if n == 0 then 0 else Step(roles, s).delay + Elapsed(roles, Step(roles, s).next, n - 1)
  }

  /** Every state reached from a reachable state is reachable. */
  lemma {:induction false} RunKeepsInvariant(roles: seq<string>, s: TypingState, n: nat)
    requires ValidRoles(roles) && Invariant(roles, s)
    ensures Invariant(roles, Run(roles, s, n))
    decreases n
  {
    if n > 0 {
      StepKeepsInvariant(roles, s);
      RunKeepsInvariant(roles, Step(roles, s).next, n - 1);
    }
  }

  /** In particular, every state the page ever reaches is reachable. */
  lemma StartIsReachable(roles: seq<string>, n: nat)
    requires ValidRoles(roles)
    ensures Invariant(roles, Run(roles, Start, n))
  {
    RunKeepsInvariant(roles, Start, n);
  }

  /** The roles of the page satisfy what the step machine relies on. */
  lemma RolesAreValid()
    ensures ValidRoles(Roles)
  {
  }

  /** Running `a` steps and then `b` steps is running `a + b` steps. */
  lemma {:induction false} RunAdd(roles: seq<string>, s: TypingState, a: nat, b: nat)
    requires s.roleIndex < |roles|
    ensures Run(roles, Run(roles, s, a), b) == Run(roles, s, a + b)
    decreases a
  {
    if a > 0 {
      RunAdd(roles, Step(roles, s).next, a - 1, b);
    }
  }

  /** While typing and short of the end, each step adds one character. */
  lemma {:induction false} TypeUp(roles: seq<string>, r: nat, c: nat, k: nat)
    requires r < |roles| && c + k < |roles[r]|
    ensures Run(roles, TypingState(r, c, false), k) == TypingState(r, c + k, false)
    decreases k
  {
    if k > 0 {
      TypeUp(roles, r, c + 1, k - 1);
    }
  }

  /** Typing from `c` reaches the full role, and flips to deleting, after
      `|role| - c` steps. */
  lemma {:induction false} TypeToEnd(roles: seq<string>, r: nat, c: nat)
    requires r < |roles| && c < |roles[r]|
    ensures Run(roles, TypingState(r, c, false), |roles[r]| - c) == TypingState(r, |roles[r]|, true)
    decreases |roles[r]| - c
  {
    if c + 1 < |roles[r]| {
      TypeToEnd(roles, r, c + 1);
    }
  }

  /** While deleting and short of the start, each step removes one character. */
  lemma {:induction false} DeleteDown(roles: seq<string>, r: nat, c: nat, k: nat)
    requires r < |roles| && k < c
    ensures Run(roles, TypingState(r, c, true), k) == TypingState(r, c - k, true)
    decreases k
  {
    if k > 0 {
      DeleteDown(roles, r, c - 1, k - 1);
    }
  }

  /** Deleting from `c` empties the text, and moves on to the next role, after
      `c` steps. */
  lemma {:induction false} DeleteToEnd(roles: seq<string>, r: nat, c: nat)
    requires r < |roles| && c >= 1
    ensures Run(roles, TypingState(r, c, true), c) == TypingState((r + 1) % |roles|, 0, false)
    decreases c
  {
    if c > 1 {
      DeleteToEnd(roles, r, c - 1);
    }
  }

  /** The state after `k` steps of a cycle that began typing role `r` from
      nothing: up the role while typing, then back down while deleting. */
  lemma CycleState(roles: seq<string>, r: nat, k: nat)
    requires ValidRoles(roles) && r < |roles| && k < 2 * |roles[r]|
    ensures var s := Run(roles, TypingState(r, 0, false), k);
            if k < |roles[r]| then s == TypingState(r, k, false)
            else s == TypingState(r, 2 * |roles[r]| - k, true)
  {
    var n := |roles[r]|;
    if k < n {
      TypeUp(roles, r, 0, k);
    } else {
      TypeToEnd(roles, r, 0);
      DeleteDown(roles, r, n, k - n);
      RunAdd(roles, TypingState(r, 0, false), n, k - n);
    }
  }

  /** From the start of role `r`, exactly `2 * |role|` steps lead to the start
      of the next role (cyclically); no earlier step does. */
  lemma Cycle(roles: seq<string>, r: nat)
    requires ValidRoles(roles) && r < |roles|
    ensures Run(roles, TypingState(r, 0, false), 2 * |roles[r]|) == TypingState((r + 1) % |roles|, 0, false)
    ensures forall k :: 0 < k < 2 * |roles[r]| ==>
              Run(roles, TypingState(r, 0, false), k) != TypingState((r + 1) % |roles|, 0, false)
  {
    var n := |roles[r]|;
    var s0 := TypingState(r, 0, false);
    TypeToEnd(roles, r, 0);
    DeleteToEnd(roles, r, n);
    RunAdd(roles, s0, n, n);
    forall k | 0 < k < 2 * n
      ensures Run(roles, s0, k) != TypingState((r + 1) % |roles|, 0, false)
    {
      CycleState(roles, r, k);
    }
  }

  /** The texts a cycle writes: the role grows one character at a time to its
      full length, then shrinks one character at a time to nothing. */
  lemma CycleText(roles: seq<string>, r: nat, k: nat)
    requires ValidRoles(roles) && r < |roles| && k < 2 * |roles[r]|
    ensures Step(roles, Run(roles, TypingState(r, 0, false), k)).text ==
            if k < |roles[r]| then roles[r][..k + 1] else roles[r][..2 * |roles[r]| - k - 1]
  {
    CycleState(roles, r, k);
  }

  /** One full cycle of role `r` takes `150 * |role| + 2350` milliseconds:
      every character is typed and deleted, and the two phase changes pause
      for 2000 and 500 milliseconds instead. */
  lemma CycleDuration(roles: seq<string>, r: nat)
    requires ValidRoles(roles) && r < |roles|
    ensures Elapsed(roles, TypingState(r, 0, false), 2 * |roles[r]|) == 150 * |roles[r]| + 2350
  {
    var n := |roles[r]|;
    TypeDuration(roles, r, 0);
    DeleteDuration(roles, r, n);
    TypeToEnd(roles, r, 0);
    ElapsedAdd(roles, TypingState(r, 0, false), n, n);
  }

  lemma {:induction false} ElapsedAdd(roles: seq<string>, s: TypingState, a: nat, b: nat)
    requires s.roleIndex < |roles|
    ensures Elapsed(roles, s, a + b) == Elapsed(roles, s, a) + Elapsed(roles, Run(roles, s, a), b)
    decreases a
  {
    if a > 0 {
      ElapsedAdd(roles, Step(roles, s).next, a - 1, b);
    }
  }

  lemma {:induction false} TypeDuration(roles: seq<string>, r: nat, c: nat)
    requires r < |roles| && c < |roles[r]|
    ensures Elapsed(roles, TypingState(r, c, false), |roles[r]| - c) == 100 * (|roles[r]| - c - 1) + 2000
    decreases |roles[r]| - c
  {
    if c + 1 < |roles[r]| {
      TypeDuration(roles, r, c + 1);
    }
  }

  lemma {:induction false} DeleteDuration(roles: seq<string>, r: nat, c: nat)
    requires r < |roles| && c >= 1
    ensures Elapsed(roles, TypingState(r, c, true), c) == 50 * (c - 1) + 500
    decreases c
  {
    if c > 1 {
      DeleteDuration(roles, r, c - 1);
    }
  }

  /** The sum of a sequence of delays. */
  function Sum(ds: seq<nat>): nat
    decreases |ds|
  {
    if ds == [] then 0 else Sum(ds[..|ds| - 1]) + ds[|ds| - 1]
  }

  /** `texts` and `delays` are what the first calls of `type` from `Start`
      wrote and chose, call by call. */
  ghost predicate Recorded(roles: seq<string>, texts: seq<string>, delays: seq<nat>)
    requires ValidRoles(roles)
  {
    && |texts| == |delays|
    && forall k :: 0 <= k < |texts| ==>
         texts[k] == Step(roles, Run(roles, Start, k)).text && delays[k] == Step(roles, Run(roles, Start, k)).delay
  }

  /** What the recorded texts and delays look like: prefixes of the current
      role, and one of the four delays. */
  lemma RecordedShape(roles: seq<string>, texts: seq<string>, delays: seq<nat>)
    requires ValidRoles(roles) && Recorded(roles, texts, delays)
    ensures forall k :: 0 <= k < |texts| ==> texts[k] <= roles[Run(roles, Start, k).roleIndex]
    ensures forall k :: 0 <= k < |delays| ==> delays[k] in {TypeDelay, DeleteDelay, FullWordDelay, NextRoleDelay}
  {
  }

  /** Recorded delays add up to the time the recorded steps take. */
  lemma {:induction false} RecordedElapsed(roles: seq<string>, texts: seq<string>, delays: seq<nat>)
    requires ValidRoles(roles) && Recorded(roles, texts, delays)
    ensures Sum(delays) == Elapsed(roles, Start, |delays|)
    decreases |delays|
  {
    if delays != [] {
      var m := |delays| - 1;
      assert Recorded(roles, texts[..m], delays[..m]);
      RecordedElapsed(roles, texts[..m], delays[..m]);
      ElapsedAdd(roles, Start, m, 1);
    }
  }

  /** The page's loop of `type` calls, unrolled `n` times: the texts written
      and the delays scheduled.  Each is exactly what that call's step
      produced; every text is a prefix of the role current at that step,
      every delay is one of the four the source uses. */
  method Animate(roles: seq<string>, n: nat) returns (texts: seq<string>, delays: seq<nat>)
    requires ValidRoles(roles)
    ensures |texts| == n && |delays| == n
    ensures forall k :: 0 <= k < n ==> texts[k] == Step(roles, Run(roles, Start, k)).text
    ensures forall k :: 0 <= k < n ==> delays[k] == Step(roles, Run(roles, Start, k)).delay
    ensures forall k :: 0 <= k < n ==> texts[k] <= roles[Run(roles, Start, k).roleIndex]
    ensures forall k :: 0 <= k < n ==> delays[k] in {TypeDelay, DeleteDelay, FullWordDelay, NextRoleDelay}
  {
    var s := Start;
    texts, delays := [], [];
    var i := 0;
    while i < n
      invariant 0 <= i <= n
      invariant |texts| == i
      invariant s == Run(roles, Start, i)
      invariant Recorded(roles, texts, delays)
    {
      var t := Step(roles, s);
      RunAdd(roles, Start, i, 1);
      texts := texts + [t.text];
      delays := delays + [t.delay];
      s := t.next;
      i := i + 1;
    }
    RecordedShape(roles, texts, delays);
  }
}
