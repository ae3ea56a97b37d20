/** The versioned optimistic lock: any number of threads take atomic steps on any number of nodes.

    A lock word counts in steps of four: bit 1 is set while a thread is in a write section, bit 0 once
    the node is obsolete.  The words are unsigned 64-bit numbers and wrap around. */
module OptimisticLock {

  const WORDS: nat := 0x1_0000_0000_0000_0000

  type Word = w: nat | w < WORDS

  function SetLockedBit(version: Word): Word
  {
    FetchAdd(version, 2)
  }

  predicate IsLocked(version: Word)
  {
    version / 2 % 2 == 1
  }

  predicate IsObsolete(version: Word)
  {
    version % 2 == 1
  }

  function FetchAdd(word: Word, k: nat): Word
  {
    (word + k) % WORDS
  }

  // ----- the state machine

  /** `writes` and `sections` count the data writes and the write sections begun so far, without bound. */
  datatype Node = Node(lock: Word, data: int, writes: nat, sections: nat)

  /** What a thread is doing with a node.  A reader remembers the version it read, whether it was told
      to restart, and (for the statements below) the data and the counters at that moment. */
  datatype Hold =
    | Idle
    | Reading(version: Word, restart: bool, seenData: int, seenWrites: nat, seenSections: nat)
    | Writing

  datatype State = State(nodes: seq<Node>, holds: map<(nat, nat), Hold>)

  datatype Action =
    | ReadLock(t: nat, n: nat)
    | Release(t: nat, n: nat)
    | Upgrade(t: nat, n: nat)
    | UpgradeOrUnlock(t: nat, n: nat, held: nat)
    | ValidateOrUnlock(t: nat, n: nat, held: nat)
    | Write(t: nat, n: nat, value: int)
    | WriteUnlock(t: nat, n: nat)
    | WriteUnlockObsolete(t: nat, n: nat)
    | Downgrade(t: nat, n: nat)

  function HoldOf(s: State, t: nat, n: nat): Hold
  {
    if (t, n) in s.holds then s.holds[(t, n)] else Idle
  }

  function WithHold(s: State, t: nat, n: nat, h: Hold): (r: State)
    ensures r.nodes == s.nodes
    ensures forall u, m :: HoldOf(r, u, m) == if u == t && m == n then h else HoldOf(s, u, m)
  {
    s.(holds := s.holds[(t, n) := h])
  }

  function WithNode(s: State, n: nat, node: Node): State
    requires n < |s.nodes|
  {
    s.(nodes := s.nodes[n := node])
  }

  /** Only a reader that was not told to restart goes on; only a writer writes and unlocks. */
  predicate Enabled(s: State, a: Action)
  {
    a.n < |s.nodes| &&
    match a
    case ReadLock(t, n) => HoldOf(s, t, n).Idle?
    case Release(t, n) => HoldOf(s, t, n).Reading?
    case Upgrade(t, n) => HoldOf(s, t, n).Reading? && !HoldOf(s, t, n).restart
    case UpgradeOrUnlock(t, n, held) =>
      HoldOf(s, t, n).Reading? && !HoldOf(s, t, n).restart && held < |s.nodes| && HoldOf(s, t, held).Writing?
    case ValidateOrUnlock(t, n, held) =>
      HoldOf(s, t, n).Reading? && held < |s.nodes| && HoldOf(s, t, held).Writing?
    case Write(t, n, _) => HoldOf(s, t, n).Writing?
    case WriteUnlock(t, n) => HoldOf(s, t, n).Writing?
    case WriteUnlockObsolete(t, n) => HoldOf(s, t, n).Writing?
    case Downgrade(t, n) => HoldOf(s, t, n).Writing?
  }

  /** One iteration of the spin loop: a locked node is tried again later. */
  function DoReadLock(s: State, t: nat, n: nat): State
    requires n < |s.nodes|
  {
    var node := s.nodes[n];
    if IsLocked(node.lock) then s
    else WithHold(s, t, n, Reading(node.lock, IsObsolete(node.lock), node.data, node.writes, node.sections))
  }

  /** Compare-and-exchange of the version against the version with its locked bit set. */
  function DoUpgrade(s: State, t: nat, n: nat): State
    requires n < |s.nodes| && HoldOf(s, t, n).Reading?
  {
    var node, version := s.nodes[n], HoldOf(s, t, n).version;
    if node.lock == version then
      WithHold(WithNode(s, n, node.(lock := SetLockedBit(version), sections := node.sections + 1)), t, n, Writing)
    else
      WithHold(s, t, n, Idle)
  }

  function DoUnlock(s: State, t: nat, n: nat, k: nat): State
    requires n < |s.nodes|
  {
    WithHold(WithNode(s, n, s.nodes[n].(lock := FetchAdd(s.nodes[n].lock, k))), t, n, Idle)
  }

  function DoDowngrade(s: State, t: nat, n: nat): State
    requires n < |s.nodes|
  {
    var node := s.nodes[n];
    var version := FetchAdd(node.lock, 2);
    WithHold(WithNode(s, n, node.(lock := version)), t, n,
             Reading(version, false, node.data, node.writes, node.sections))
  }

  function Step(s: State, a: Action): State
    requires Enabled(s, a)
  {
    match a
    case ReadLock(t, n) => DoReadLock(s, t, n)
    case Release(t, n) => WithHold(s, t, n, Idle)
    case Upgrade(t, n) => DoUpgrade(s, t, n)
    case UpgradeOrUnlock(t, n, held) =>
      if s.nodes[n].lock == HoldOf(s, t, n).version then DoUpgrade(s, t, n)
      else DoUnlock(DoUpgrade(s, t, n), t, held, 2)
    case ValidateOrUnlock(t, n, held) =>
      if s.nodes[n].lock == HoldOf(s, t, n).version then s
      else DoUnlock(WithHold(s, t, n, Idle), t, held, 2)
    case Write(t, n, v) => WithNode(s, n, s.nodes[n].(data := v, writes := s.nodes[n].writes + 1))
    case WriteUnlock(t, n) => DoUnlock(s, t, n, 2)
    case WriteUnlockObsolete(t, n) => DoUnlock(s, t, n, 3)
    case Downgrade(t, n) => DoDowngrade(s, t, n)
  }

  predicate Init(s: State)
  {
    && (forall n | 0 <= n < |s.nodes| :: s.nodes[n].lock == 0 && s.nodes[n].writes == 0 && s.nodes[n].sections == 0)
    && s.holds == map[]
  }

  // ----- words

  const QUARTER: nat := 0x4000_0000_0000_0000

  lemma Flags(w: nat)
    ensures w / 2 % 2 == (if w % 4 >= 2 then 1 else 0)
    ensures w % 2 == (if w % 4 == 1 || w % 4 == 3 then 1 else 0)
  {
    var q, r := w / 4, w % 4;
    assert w == 4 * q + r;
    assert w / 2 == 2 * q + r / 2;
  }

  /** Wrapping around does not touch the two flag bits. */
  lemma WrapKeepsFlags(w: Word, k: nat)
    requires k <= 3
    ensures FetchAdd(w, k) % 4 == (w + k) % 4
  {
    var sum := w + k;
    if sum >= WORDS {
      assert sum == 4 * QUARTER + FetchAdd(w, k);
    }
  }

  /** A write section begins on a word without flags. */
  lemma BeginSetsLocked(w: Word)
    requires !IsLocked(w)
    ensures IsLocked(SetLockedBit(w)) && (IsObsolete(SetLockedBit(w)) <==> IsObsolete(w))
  {
    Flags(w);
    Flags(SetLockedBit(w));
    WrapKeepsFlags(w, 2);
    NextFlags(w, 2);
  }

  lemma NextFlags(w: nat, k: nat)
    requires k <= 3
    ensures (w + k) % 4 == if w % 4 + k < 4 then w % 4 + k else w % 4 + k - 4
  {
    var q, r := w / 4, w % 4;
    assert w == 4 * q + r;
  }

  /** A write section ends: with 2 normally, with 3 when the node becomes obsolete. */
  lemma EndClearsLocked(w: Word, k: nat)
    requires IsLocked(w) && !IsObsolete(w) && (k == 2 || k == 3)
    ensures !IsLocked(FetchAdd(w, k)) && (IsObsolete(FetchAdd(w, k)) <==> k == 3)
  {
    Flags(w);
    Flags(FetchAdd(w, k));
    WrapKeepsFlags(w, k);
    NextFlags(w, k);
  }

  /** The word after `sections` write sections were begun, the last one unfinished if `locked`. */
  function WordAt(sections: nat, locked: bool, obsolete: bool): Word
  {
    (4 * sections + if locked then -2 else if obsolete then 1 else 0) % WORDS
  }

  lemma WrapAdd(x: int, k: nat)
    requires k <= 3
    ensures FetchAdd(x % WORDS, k) == (x + k) % WORDS
  {
    var q, w := x / WORDS, x % WORDS;
    if w + k < WORDS {
      WrapIs(x + k, q, w + k);
    } else {
      WrapIs(x + k, q + 1, w + k - WORDS);
    }
  }

  lemma WrapIs(x: int, q: int, w: Word)
    requires x == q * WORDS + w
    ensures x % WORDS == w
  {
    assert (x / WORDS - q) * WORDS == w - x % WORDS;
  }

  lemma BeginCounts(sections: nat)
    ensures SetLockedBit(WordAt(sections, false, false)) == WordAt(sections + 1, true, false)
  {
    WrapAdd(4 * sections, 2);
  }

  lemma EndCounts(sections: nat, k: nat)
    requires k == 2 || k == 3
    ensures FetchAdd(WordAt(sections, true, false), k) == WordAt(sections, false, k == 3)
  {
    WrapAdd(4 * sections - 2, k);
  }

  /** Words without the locked bit repeat after 2^62 write sections and not before. */
  lemma WordsRepeat(a: nat, b: nat, obsolete: bool)
    requires a <= b
    ensures WordAt(a, false, obsolete) == WordAt(b, false, obsolete) <==> (b - a) % QUARTER == 0
  {
    var off := if obsolete then 1 else 0;
    var x, y := 4 * a + off, 4 * b + off;
    var q, r := (b - a) / QUARTER, (b - a) % QUARTER;
    assert y == x + 4 * r + q * WORDS;
    var p, w := x / WORDS, x % WORDS;
    if w + 4 * r < WORDS {
      WrapIs(y, p + q, w + 4 * r);
    } else {
      WrapIs(y, p + q + 1, w + 4 * r - WORDS);
    }
  }

  // ----- the invariant

  /** The lock word tells the number of write sections modulo 2^62, and the flags. */
  predicate LockCounts(node: Node)
  {
    && !(IsLocked(node.lock) && IsObsolete(node.lock))
    && (IsLocked(node.lock) ==> node.sections > 0)
    && node.lock == WordAt(node.sections, IsLocked(node.lock), IsObsolete(node.lock))
  }

  ghost predicate HoldsInv(s: State, n: nat)
    requires n < |s.nodes|
  {
    var node := s.nodes[n];
    && (IsLocked(node.lock) <==> exists t :: HoldOf(s, t, n).Writing?)
    && (forall t, u :: HoldOf(s, t, n).Writing? && HoldOf(s, u, n).Writing? ==> t == u)
    && (forall t :: ReaderInv(node, HoldOf(s, t, n)))
  }

  /** A reader holds a word without the locked bit; while no section was begun since, the node is as
      the reader saw it. */
  predicate ReaderInv(node: Node, h: Hold)
  {
    h.Reading? ==>
      && !IsLocked(h.version) && h.restart == IsObsolete(h.version)
      && h.version == WordAt(h.seenSections, false, h.restart)
      && h.seenSections <= node.sections
      && (h.seenSections == node.sections ==>
            node.lock == h.version && h.seenData == node.data && h.seenWrites == node.writes)
  }

  ghost predicate NodeInv(s: State, n: nat)
    requires n < |s.nodes|
  {
    LockCounts(s.nodes[n]) && HoldsInv(s, n)
  }

  ghost predicate Inv(s: State)
  {
    forall n | 0 <= n < |s.nodes| :: NodeInv(s, n)
  }

  lemma InitInv(s: State)
    requires Init(s)
    ensures Inv(s)
  {
  }

  /** Nothing changed about node m except, possibly, what thread t reads there. */
  lemma OthersKeepInv(s: State, s': State, t: nat, m: nat)
    requires m < |s.nodes| == |s'.nodes| && NodeInv(s, m)
    requires s'.nodes[m] == s.nodes[m]
    requires forall u | u != t :: HoldOf(s', u, m) == HoldOf(s, u, m)
    requires HoldOf(s', t, m) == HoldOf(s, t, m)
             || (!HoldOf(s', t, m).Writing? && !HoldOf(s, t, m).Writing? && ReaderInv(s.nodes[m], HoldOf(s', t, m)))
    ensures NodeInv(s', m)
  {
    hide IsLocked, LockCounts, ReaderInv;
    if IsLocked(s.nodes[m].lock) {
      var u :| HoldOf(s, u, m).Writing?;
      assert HoldOf(s', u, m).Writing?;
    }
  }

  lemma ReadLockKeepsInv(s: State, t: nat, n: nat)
    requires Inv(s) && n < |s.nodes| && !HoldOf(s, t, n).Writing?
    ensures Inv(DoReadLock(s, t, n))
  {
    hide IsLocked, IsObsolete, WordAt;
    var s' := DoReadLock(s, t, n);
    assert NodeInv(s, n);
    forall m | 0 <= m < |s.nodes| ensures NodeInv(s', m) {
      assert NodeInv(s, m);
      OthersKeepInv(s, s', t, m);
    }
  }

  lemma ReleaseKeepsInv(s: State, t: nat, n: nat)
    requires Inv(s) && n < |s.nodes| && !HoldOf(s, t, n).Writing?
    ensures Inv(WithHold(s, t, n, Idle))
  {
    var s' := WithHold(s, t, n, Idle);
    forall m | 0 <= m < |s.nodes| ensures NodeInv(s', m) {
      assert NodeInv(s, m);
      OthersKeepInv(s, s', t, m);
    }
  }

  lemma UpgradedNode(s: State, t: nat, n: nat)
    requires n < |s.nodes| && NodeInv(s, n) && Enabled(s, Upgrade(t, n))
    requires s.nodes[n].lock == HoldOf(s, t, n).version
    ensures NodeInv(DoUpgrade(s, t, n), n)
  {
    hide IsLocked, IsObsolete, WordAt, FetchAdd, SetLockedBit;
    var s', node := DoUpgrade(s, t, n), s.nodes[n];
    assert ReaderInv(node, HoldOf(s, t, n));
    BeginSetsLocked(node.lock);
    BeginCounts(node.sections);
    assert HoldOf(s', t, n).Writing?;
    forall u
      ensures ReaderInv(s'.nodes[n], HoldOf(s', u, n)) && (HoldOf(s', u, n).Writing? <==> u == t)
    {
      assert ReaderInv(node, HoldOf(s, u, n));
      assert !HoldOf(s, u, n).Writing?;
    }
  }

  lemma UpgradeKeepsInv(s: State, t: nat, n: nat)
    requires Inv(s) && Enabled(s, Upgrade(t, n))
    ensures Inv(DoUpgrade(s, t, n))
  {
    hide IsLocked, IsObsolete, SetLockedBit, ReaderInv, LockCounts, HoldsInv;
    var s' := DoUpgrade(s, t, n);
    if s.nodes[n].lock == HoldOf(s, t, n).version {
      assert NodeInv(s, n);
      UpgradedNode(s, t, n);
      forall m | 0 <= m < |s.nodes| && m != n ensures NodeInv(s', m) {
        assert NodeInv(s, m);
        OthersKeepInv(s, s', t, m);
      }
    } else {
      ReleaseKeepsInv(s, t, n);
    }
  }

  /** A write section ends: with 2 normally, with 3 when the node becomes obsolete.  Afterwards the
      thread is idle, or it reads the new version. */
  lemma EndedNode(s: State, s': State, t: nat, n: nat, k: nat)
    requires n < |s.nodes| && NodeInv(s, n) && HoldOf(s, t, n).Writing? && (k == 2 || k == 3)
    requires n < |s'.nodes| && s'.nodes[n] == s.nodes[n].(lock := FetchAdd(s.nodes[n].lock, k))
    requires forall u | u != t :: HoldOf(s', u, n) == HoldOf(s, u, n)
    requires
      var node := s'.nodes[n];
      HoldOf(s', t, n).Idle?
      || (k == 2 && HoldOf(s', t, n) == Reading(node.lock, false, node.data, node.writes, node.sections))
    ensures NodeInv(s', n)
  {
    hide IsLocked, IsObsolete, WordAt, FetchAdd;
    var node := s.nodes[n];
    EndClearsLocked(node.lock, k);
    EndCounts(node.sections, k);
    forall u ensures ReaderInv(s'.nodes[n], HoldOf(s', u, n)) && !HoldOf(s', u, n).Writing? {
      assert ReaderInv(node, HoldOf(s, u, n));
      assert HoldOf(s, u, n).Writing? ==> u == t;
    }
  }

  lemma UnlockKeepsInv(s: State, t: nat, n: nat, k: nat)
    requires Inv(s) && n < |s.nodes| && HoldOf(s, t, n).Writing? && (k == 2 || k == 3)
    ensures Inv(DoUnlock(s, t, n, k))
  {
    hide IsLocked, IsObsolete, FetchAdd, ReaderInv, LockCounts, HoldsInv;
    var s' := DoUnlock(s, t, n, k);
    assert NodeInv(s, n);
    EndedNode(s, s', t, n, k);
    forall m | 0 <= m < |s.nodes| && m != n ensures NodeInv(s', m) {
      assert NodeInv(s, m);
      OthersKeepInv(s, s', t, m);
    }
  }

  lemma DowngradeKeepsInv(s: State, t: nat, n: nat)
    requires Inv(s) && n < |s.nodes| && HoldOf(s, t, n).Writing?
    ensures Inv(DoDowngrade(s, t, n))
  {
    hide IsLocked, IsObsolete, FetchAdd, ReaderInv, LockCounts, HoldsInv;
    var s' := DoDowngrade(s, t, n);
    assert NodeInv(s, n);
    EndedNode(s, s', t, n, 2);
    forall m | 0 <= m < |s.nodes| && m != n ensures NodeInv(s', m) {
      assert NodeInv(s, m);
      OthersKeepInv(s, s', t, m);
    }
  }

  lemma WriteKeepsInv(s: State, t: nat, n: nat, value: int)
    requires Inv(s) && Enabled(s, Write(t, n, value))
    ensures Inv(Step(s, Write(t, n, value)))
  {
    hide IsLocked, IsObsolete, WordAt;
    var s' := Step(s, Write(t, n, value));
    assert NodeInv(s, n);
    forall m | 0 <= m < |s.nodes| ensures NodeInv(s', m) {
      assert NodeInv(s, m);
      if m == n {
        assert HoldOf(s', t, n).Writing?;
        forall u ensures HoldOf(s', u, n) == HoldOf(s, u, n) && ReaderInv(s'.nodes[n], HoldOf(s', u, n)) {
          assert ReaderInv(s.nodes[n], HoldOf(s, u, n));
        }
      } else {
        OthersKeepInv(s, s', t, m);
      }
    }
  }

  lemma StepKeepsInv(s: State, a: Action)
    requires Inv(s) && Enabled(s, a)
    ensures Inv(Step(s, a))
  {
    hide IsLocked, IsObsolete, FetchAdd, Inv;
    match a
    case ReadLock(t, n) => ReadLockKeepsInv(s, t, n);
    case Release(t, n) => ReleaseKeepsInv(s, t, n);
    case Upgrade(t, n) => UpgradeKeepsInv(s, t, n);
    case UpgradeOrUnlock(t, n, held) =>
      if s.nodes[n].lock == HoldOf(s, t, n).version {
        UpgradeKeepsInv(s, t, n);
      } else {
        ReleaseKeepsInv(s, t, n);
        UnlockKeepsInv(DoUpgrade(s, t, n), t, held, 2);
      }
    case ValidateOrUnlock(t, n, held) =>
      if s.nodes[n].lock != HoldOf(s, t, n).version {
        ReleaseKeepsInv(s, t, n);
        UnlockKeepsInv(WithHold(s, t, n, Idle), t, held, 2);
      }
    case Write(t, n, v) => WriteKeepsInv(s, t, n, v);
    case WriteUnlock(t, n) => UnlockKeepsInv(s, t, n, 2);
    case WriteUnlockObsolete(t, n) => UnlockKeepsInv(s, t, n, 3);
    case Downgrade(t, n) => DowngradeKeepsInv(s, t, n);
  }

  // ----- runs

  /** A run from an initial state; actions[i] leads from states[i] to states[i + 1]. */
  predicate IsRun(states: seq<State>, actions: seq<Action>)
  {
    && |states| == |actions| + 1
    && Init(states[0])
    && forall i | 0 <= i < |actions| :: Enabled(states[i], actions[i]) && states[i + 1] == Step(states[i], actions[i])
  }

  /** Every state of every run satisfies the invariant, however many write sections it has. */
  lemma {:induction false} RunInv(states: seq<State>, actions: seq<Action>, i: nat)
    requires IsRun(states, actions) && i < |states|
    ensures Inv(states[i])
  {
    hide Inv, Step, Enabled;
    if i == 0 {
      InitInv(states[0]);
    } else {
      RunInv(states, actions, i - 1);
      StepKeepsInv(states[i - 1], actions[i - 1]);
    }
  }

  /** Mutual exclusion: at most one thread is in a write section of a node, and exactly while the lock
      word says so. */
  lemma MutualExclusion(states: seq<State>, actions: seq<Action>, i: nat, n: nat)
    requires IsRun(states, actions) && i < |states| && n < |states[i].nodes|
    ensures forall t, u :: HoldOf(states[i], t, n).Writing? && HoldOf(states[i], u, n).Writing? ==> t == u
    ensures IsLocked(states[i].nodes[n].lock) <==> exists t :: HoldOf(states[i], t, n).Writing?
    ensures !(IsLocked(states[i].nodes[n].lock) && IsObsolete(states[i].nodes[n].lock))
  {
    hide IsRun;
    RunInv(states, actions, i);
    assert NodeInv(states[i], n);
  }

  /** What one step can do to a node: nothing, begin a section on a node that is neither locked nor
      obsolete, or go on with or end the section that is in progress. */
  lemma StepOnNode(s: State, a: Action, n: nat)
    requires Inv(s) && Enabled(s, a) && n < |s.nodes|
    ensures |Step(s, a).nodes| == |s.nodes|
    ensures var node, next := s.nodes[n], Step(s, a).nodes[n];
            || next == node
            || (!IsLocked(node.lock) && !IsObsolete(node.lock) && IsLocked(next.lock)
                && next == node.(lock := next.lock, sections := node.sections + 1))
            || (IsLocked(node.lock) && next.sections == node.sections)
  {
    hide IsLocked, IsObsolete, FetchAdd, WordAt, SetLockedBit;
    assert NodeInv(s, n) && ReaderInv(s.nodes[n], HoldOf(s, a.t, n));
    if a.n == n && (a.Upgrade? || a.UpgradeOrUnlock?) && s.nodes[n].lock == HoldOf(s, a.t, n).version {
      BeginSetsLocked(s.nodes[n].lock);
    }
  }

  lemma {:induction false} SectionsGrow(states: seq<State>, actions: seq<Action>, i: nat, j: nat, n: nat)
    requires IsRun(states, actions) && i <= j < |states| && n < |states[i].nodes|
    ensures |states[j].nodes| == |states[i].nodes|
    ensures states[i].nodes[n].sections <= states[j].nodes[n].sections
  {
    hide Inv, Step, Enabled;
    if i < j {
      SectionsGrow(states, actions, i, j - 1, n);
      RunInv(states, actions, j - 1);
      StepOnNode(states[j - 1], actions[j - 1], n);
    }
  }

  /** A node that is not locked stays as it is until the next write section begins. */
  lemma {:induction false} OnlySectionsChangeNodes(states: seq<State>, actions: seq<Action>, i: nat, j: nat, n: nat)
    requires IsRun(states, actions) && i <= j < |states| && n < |states[i].nodes|
    requires !IsLocked(states[i].nodes[n].lock)
    ensures |states[j].nodes| == |states[i].nodes|
    ensures states[j].nodes[n].sections == states[i].nodes[n].sections ==> states[j].nodes[n] == states[i].nodes[n]
  {
    hide Inv, Step, Enabled, IsLocked, IsObsolete;
    SectionsGrow(states, actions, i, j, n);
    if i < j {
      SectionsGrow(states, actions, i, j - 1, n);
      OnlySectionsChangeNodes(states, actions, i, j - 1, n);
      RunInv(states, actions, j - 1);
      StepOnNode(states[j - 1], actions[j - 1], n);
    }
  }

  /** No section is in progress, the obsolete bit is as it was read, and the number of write sections
      that began since the version was read is a multiple of 2^62. */
  predicate Restored(node: Node, h: Hold)
    requires h.Reading?
  {
    && !IsLocked(node.lock) && IsObsolete(node.lock) == h.restart
    && (node.sections - h.seenSections) % QUARTER == 0
  }

  /** Validation compares words: when a version that a thread holds in state i is the lock word of a
      later state j. */
  lemma ValidationAfterSections(states: seq<State>, actions: seq<Action>, i: nat, j: nat, t: nat, n: nat)
    requires IsRun(states, actions) && i <= j < |states| && n < |states[i].nodes| && HoldOf(states[i], t, n).Reading?
    ensures |states[j].nodes| == |states[i].nodes|
    ensures states[j].nodes[n].lock == HoldOf(states[i], t, n).version
       <==> Restored(states[j].nodes[n], HoldOf(states[i], t, n))
  {
    hide IsRun, IsLocked, IsObsolete, WordAt;
    SectionsGrow(states, actions, i, j, n);
    var h, node := HoldOf(states[i], t, n), states[j].nodes[n];
    RunInv(states, actions, i);
    RunInv(states, actions, j);
    assert NodeInv(states[i], n) && ReaderInv(states[i].nodes[n], h) && NodeInv(states[j], n);
    WordsRepeat(h.seenSections, node.sections, h.restart);
  }

  /** A successful validation: if a thread holds a version in state i, the lock word is that version in
      a later state j, and fewer than 2^62 write sections began since the version was read, then the
      node did not change at all in between. */
  lemma ValidatedReadSawNoWrite(states: seq<State>, actions: seq<Action>, i: nat, j: nat, t: nat, n: nat)
    requires IsRun(states, actions) && i <= j < |states| && n < |states[i].nodes| && n < |states[j].nodes|
    requires HoldOf(states[i], t, n).Reading?
    requires states[j].nodes[n].lock == HoldOf(states[i], t, n).version
    requires states[j].nodes[n].sections - HoldOf(states[i], t, n).seenSections < QUARTER
    ensures states[j].nodes[n] == states[i].nodes[n]
    ensures states[j].nodes[n].data == HoldOf(states[i], t, n).seenData
    ensures states[j].nodes[n].writes == HoldOf(states[i], t, n).seenWrites
  {
    hide IsRun, IsLocked, IsObsolete, WordAt;
    var h := HoldOf(states[i], t, n);
    ValidationAfterSections(states, actions, i, j, t, n);
    SectionsGrow(states, actions, i, j, n);
    RunInv(states, actions, i);
    assert NodeInv(states[i], n) && ReaderInv(states[i].nodes[n], h);
    assert h.seenSections == states[j].nodes[n].sections;
    OnlySectionsChangeNodes(states, actions, i, j, n);
  }

  /** An obsolete node is final: it is never locked again and its data never changes. */
  lemma {:induction false} ObsoleteIsFinal(states: seq<State>, actions: seq<Action>, i: nat, j: nat, n: nat)
    requires IsRun(states, actions) && i <= j < |states|
    requires n < |states[i].nodes| && IsObsolete(states[i].nodes[n].lock)
    ensures n < |states[j].nodes| && states[j].nodes[n] == states[i].nodes[n]
    ensures !IsLocked(states[j].nodes[n].lock) && forall t :: !HoldOf(states[j], t, n).Writing?
  {
    hide Inv, Step, Enabled, IsLocked, IsObsolete;
    if i < j {
      ObsoleteIsFinal(states, actions, i, j - 1, n);
      RunInv(states, actions, j - 1);
      StepOnNode(states[j - 1], actions[j - 1], n);
    }
    MutualExclusion(states, actions, j, n);
  }

  // ----- what each action does

  /** Thread `t` ends its write section on `n`: the word loses its locked flag and becomes obsolete or
      not; nothing else about the node changes, nor anything about other nodes and threads. */
  ghost predicate Ended(s: State, s': State, t: nat, n: nat, obsolete: bool)
    requires n < |s.nodes|
  {
    && |s'.nodes| == |s.nodes|
    && !IsLocked(s'.nodes[n].lock) && (IsObsolete(s'.nodes[n].lock) <==> obsolete)
    && s'.nodes[n] == s.nodes[n].(lock := s'.nodes[n].lock)
    && forall m | 0 <= m < |s.nodes| && m != n :: s'.nodes[m] == s.nodes[m]
  }

  /** Nobody else's hold changes. */
  ghost predicate OnlyHold(s: State, s': State, t: nat, n: nat)
  {
    forall u, m | u != t || m != n :: HoldOf(s', u, m) == HoldOf(s, u, m)
  }

  /** A writer may end its section in three ways: normally, making the node obsolete, or going on as a
      reader of the version it leaves behind. */
  lemma Endings(s: State, t: nat, n: nat)
    requires Inv(s) && n < |s.nodes| && HoldOf(s, t, n).Writing?
    ensures Enabled(s, WriteUnlock(t, n)) && Enabled(s, WriteUnlockObsolete(t, n)) && Enabled(s, Downgrade(t, n))
    ensures var s' := Step(s, WriteUnlock(t, n));
            Ended(s, s', t, n, false) && HoldOf(s', t, n).Idle? && OnlyHold(s, s', t, n)
    ensures var s' := Step(s, WriteUnlockObsolete(t, n));
            Ended(s, s', t, n, true) && HoldOf(s', t, n).Idle? && OnlyHold(s, s', t, n)
    ensures var s' := Step(s, Downgrade(t, n));
            && Ended(s, s', t, n, false) && OnlyHold(s, s', t, n)
            && HoldOf(s', t, n).Reading? && HoldOf(s', t, n).version == s'.nodes[n].lock && !HoldOf(s', t, n).restart
            && HoldOf(s', t, n).seenData == s.nodes[n].data
  {
    hide IsLocked, IsObsolete, FetchAdd, WordAt;
    assert NodeInv(s, n);
    EndClearsLocked(s.nodes[n].lock, 2);
    EndClearsLocked(s.nodes[n].lock, 3);
  }

  /** A reader gets the word and what the node holds, and is told to restart exactly on an obsolete node;
      on a locked node it waits. */
  lemma ReadGetsVersion(s: State, t: nat, n: nat)
    requires n < |s.nodes| && HoldOf(s, t, n).Idle?
    ensures Enabled(s, ReadLock(t, n))
    ensures var s', node := Step(s, ReadLock(t, n)), s.nodes[n];
            && s'.nodes == s.nodes && OnlyHold(s, s', t, n)
            && (IsLocked(node.lock) ==> HoldOf(s', t, n).Idle?)
            && (!IsLocked(node.lock) ==>
                  && HoldOf(s', t, n).Reading? && HoldOf(s', t, n).version == node.lock
                  && (HoldOf(s', t, n).restart <==> IsObsolete(node.lock)) && HoldOf(s', t, n).seenData == node.data)
  {
    hide IsLocked, IsObsolete;
  }

  /** The version that the reader holds is still the word of the node. */
  predicate Current(s: State, t: nat, n: nat)
  {
    n < |s.nodes| && HoldOf(s, t, n).Reading? && s.nodes[n].lock == HoldOf(s, t, n).version
  }

  /** Thread `t` begins a write section on `n`; the data stays. */
  ghost predicate Begun(s: State, s': State, t: nat, n: nat)
    requires n < |s.nodes|
  {
    && |s'.nodes| == |s.nodes| && HoldOf(s', t, n).Writing? && OnlyHold(s, s', t, n)
    && IsLocked(s'.nodes[n].lock) && !IsObsolete(s'.nodes[n].lock) && s'.nodes[n].data == s.nodes[n].data
    && forall m | 0 <= m < |s.nodes| && m != n :: s'.nodes[m] == s.nodes[m]
  }

  /** Upgrading begins a write section if the version is current; otherwise the reader gives up and no node
      changes. */
  lemma UpgradeBegins(s: State, t: nat, n: nat)
    requires Inv(s) && n < |s.nodes| && HoldOf(s, t, n).Reading? && !HoldOf(s, t, n).restart
    ensures Enabled(s, Upgrade(t, n))
    ensures var s' := Step(s, Upgrade(t, n));
            if Current(s, t, n) then Begun(s, s', t, n)
            else s'.nodes == s.nodes && HoldOf(s', t, n).Idle? && OnlyHold(s, s', t, n)
  {
    hide IsLocked, IsObsolete, SetLockedBit, WordAt;
    assert NodeInv(s, n) && ReaderInv(s.nodes[n], HoldOf(s, t, n));
    if Current(s, t, n) {
      BeginSetsLocked(s.nodes[n].lock);
    }
  }

  /** The thread gives up the version of `n` and the write lock of `held`. */
  ghost predicate GaveUp(s: State, s': State, t: nat, n: nat, held: nat)
    requires held < |s.nodes|
  {
    && Ended(s, s', t, held, false) && HoldOf(s', t, n).Idle? && HoldOf(s', t, held).Idle?
    && forall u, m | u != t || (m != n && m != held) :: HoldOf(s', u, m) == HoldOf(s, u, m)
  }

  /** With a lock held on another node, a failing upgrade or validation releases that lock. */
  lemma FailingReleases(s: State, t: nat, n: nat, held: nat)
    requires Inv(s) && n < |s.nodes| && held < |s.nodes| && HoldOf(s, t, n).Reading? && HoldOf(s, t, held).Writing?
    ensures Enabled(s, ValidateOrUnlock(t, n, held))
    ensures var s' := Step(s, ValidateOrUnlock(t, n, held));
            if Current(s, t, n) then s' == s else GaveUp(s, s', t, n, held)
    ensures !HoldOf(s, t, n).restart ==>
              && Enabled(s, UpgradeOrUnlock(t, n, held))
              && var s' := Step(s, UpgradeOrUnlock(t, n, held));
                 if Current(s, t, n) then Begun(s, s', t, n) else GaveUp(s, s', t, n, held)
  {
    hide IsLocked, IsObsolete, SetLockedBit, FetchAdd, WordAt, ReaderInv;
    assert NodeInv(s, held);
    EndClearsLocked(s.nodes[held].lock, 2);
    if !HoldOf(s, t, n).restart {
      UpgradeBegins(s, t, n);
    }
  }

  /** A writer replaces the data; a reader may leave without a trace. */
  lemma WritesAndReleases(s: State, t: nat, n: nat, value: int)
    requires n < |s.nodes|
    ensures HoldOf(s, t, n).Writing? ==>
              && Enabled(s, Write(t, n, value))
              && var s' := Step(s, Write(t, n, value));
                 && s'.holds == s.holds && |s'.nodes| == |s.nodes| && s'.nodes[n].data == value
                 && s'.nodes[n].lock == s.nodes[n].lock
                 && forall m | 0 <= m < |s.nodes| && m != n :: s'.nodes[m] == s.nodes[m]
    ensures HoldOf(s, t, n).Reading? ==>
              && Enabled(s, Release(t, n))
              && var s' := Step(s, Release(t, n));
                 s'.nodes == s.nodes && HoldOf(s', t, n).Idle? && OnlyHold(s, s', t, n)
  {
  }

  /** Only WriteUnlockObsolete makes a node obsolete, and it always does. */
  lemma ObsoleteStep(s: State, a: Action, n: nat)
    requires Inv(s) && Enabled(s, a) && n < |s.nodes|
    ensures |Step(s, a).nodes| == |s.nodes|
    ensures IsObsolete(Step(s, a).nodes[n].lock)
       <==> IsObsolete(s.nodes[n].lock) || (a.WriteUnlockObsolete? && a.n == n)
  {
    hide IsLocked, IsObsolete, SetLockedBit, FetchAdd, WordAt, ReaderInv;
    assert NodeInv(s, n) && NodeInv(s, a.n);
    match a
    case ReadLock(_, _) =>
    case Release(_, _) =>
    case Upgrade(t, m) =>
      UpgradeBegins(s, t, m);
      UpgradableIsNotObsolete(s, t, m);
    case UpgradeOrUnlock(t, m, held) =>
      FailingReleases(s, t, m, held);
      UpgradableIsNotObsolete(s, t, m);
      assert NodeInv(s, held);
    case ValidateOrUnlock(t, m, held) =>
      FailingReleases(s, t, m, held);
      assert NodeInv(s, held);
    case Write(_, _, _) =>
    case WriteUnlock(t, m) => Endings(s, t, m);
    case WriteUnlockObsolete(t, m) => Endings(s, t, m);
    case Downgrade(t, m) => Endings(s, t, m);
  }

  lemma UpgradableIsNotObsolete(s: State, t: nat, n: nat)
    requires Inv(s) && n < |s.nodes| && HoldOf(s, t, n).Reading? && !HoldOf(s, t, n).restart
    ensures Current(s, t, n) ==> !IsObsolete(s.nodes[n].lock)
  {
    hide IsLocked, IsObsolete, WordAt;
    assert NodeInv(s, n) && ReaderInv(s.nodes[n], HoldOf(s, t, n));
  }

  /** In a run a node is obsolete if and only if an earlier action made it so. */
  lemma {:induction false} ObsoleteIff(states: seq<State>, actions: seq<Action>, j: nat, n: nat)
    requires IsRun(states, actions) && j < |states| && n < |states[0].nodes|
    ensures |states[j].nodes| == |states[0].nodes|
    ensures IsObsolete(states[j].nodes[n].lock)
       <==> exists i :: 0 <= i < j && actions[i].WriteUnlockObsolete? && actions[i].n == n
  {
    hide Step, Enabled, Inv, IsObsolete;
    if j == 0 {
      FreshIsNotObsolete(states[0], n);
    } else {
      ObsoleteIff(states, actions, j - 1, n);
      RunInv(states, actions, j - 1);
      ObsoleteStep(states[j - 1], actions[j - 1], n);
    }
  }

  lemma FreshIsNotObsolete(s: State, n: nat)
    requires Init(s) && n < |s.nodes|
    ensures !IsObsolete(s.nodes[n].lock)
  {
  }

  /** While no word has wrapped around, the lock word never decreases. */
  lemma {:induction false} LockOnlyGrowsInRun(states: seq<State>, actions: seq<Action>, i: nat, j: nat, n: nat)
    requires IsRun(states, actions) && i <= j < |states| && n < |states[i].nodes| && n < |states[j].nodes|
    requires states[j].nodes[n].sections < QUARTER
    ensures states[i].nodes[n].lock <= states[j].nodes[n].lock
  {
    hide IsRun, WordAt, IsLocked, IsObsolete;
    SectionsGrow(states, actions, i, j, n);
    RunInv(states, actions, i);
    RunInv(states, actions, j);
    assert NodeInv(states[i], n) && NodeInv(states[j], n);
    UnwrappedWord(states[i].nodes[n]);
    UnwrappedWord(states[j].nodes[n]);
    if !IsLocked(states[i].nodes[n].lock) {
      OnlySectionsChangeNodes(states, actions, i, j, n);
    }
  }

  lemma UnwrappedWord(node: Node)
    requires LockCounts(node) && node.sections < QUARTER
    ensures node.lock == 4 * node.sections
                         + if IsLocked(node.lock) then -2 else if IsObsolete(node.lock) then 1 else 0
  {
    hide IsLocked, IsObsolete;
  }

  // ----- where the guarantees end

  /** Upgrading a version that is not locked keeps the obsolete bit: a reader that ignores the demand to
      restart makes a word that is locked and obsolete at once, which no run reaches. */
  lemma UpgradeNeedsRestartCheck(version: Word)
    requires !IsLocked(version)
    ensures IsLocked(SetLockedBit(version))
    ensures IsObsolete(SetLockedBit(version)) <==> IsObsolete(version)
  {
    BeginSetsLocked(version);
  }

  /** One complete write section of thread 1 on node 0. */
  lemma OneSectionRuns(s: State) returns (a: State, b: State, c: State, d: State)
    requires |s.nodes| == 1 && HoldOf(s, 1, 0).Idle?
    requires !IsLocked(s.nodes[0].lock) && !IsObsolete(s.nodes[0].lock)
    ensures Enabled(s, ReadLock(1, 0)) && a == Step(s, ReadLock(1, 0))
    ensures Enabled(a, Upgrade(1, 0)) && b == Step(a, Upgrade(1, 0))
    ensures Enabled(b, Write(1, 0, 1)) && c == Step(b, Write(1, 0, 1))
    ensures Enabled(c, WriteUnlock(1, 0)) && d == Step(c, WriteUnlock(1, 0))
    ensures var node := s.nodes[0];
            d.nodes == [Node(FetchAdd(SetLockedBit(node.lock), 2), 1, node.writes + 1, node.sections + 1)]
    ensures HoldOf(d, 1, 0).Idle? && HoldOf(d, 0, 0) == HoldOf(s, 0, 0)
  {
    hide IsLocked, IsObsolete, FetchAdd, SetLockedBit;
    a := Step(s, ReadLock(1, 0));
    b := Step(a, Upgrade(1, 0));
    c := Step(b, Write(1, 0, 1));
    d := Step(c, WriteUnlock(1, 0));
  }

  lemma RunGoesOn(states: seq<State>, actions: seq<Action>, a: Action, next: State)
    requires IsRun(states, actions) && |states| >= 1
    requires Enabled(states[|states| - 1], a) && next == Step(states[|states| - 1], a)
    ensures IsRun(states + [next], actions + [a])
  {
    hide Step, Enabled;
  }

  /** Thread 0 reads, then thread 1 writes in k sections. */
  lemma {:induction false} ReadThenSections(k: nat) returns (states: seq<State>, actions: seq<Action>)
    ensures IsRun(states, actions) && |states| >= 2
    ensures states[1].nodes == [Node(0, 0, 0, 0)]
    ensures HoldOf(states[1], 0, 0) == Reading(0, false, 0, 0, 0)
    ensures var last := states[|states| - 1];
            && HoldOf(last, 1, 0).Idle?
            && last.nodes == [Node(WordAt(k, false, false), if k == 0 then 0 else 1, k, k)]
  {
    if k == 0 {
      var start := State([Node(0, 0, 0, 0)], map[]);
      states, actions := [start, Step(start, ReadLock(0, 0))], [ReadLock(0, 0)];
    } else {
      hide IsRun, Step, Enabled, IsLocked, IsObsolete, FetchAdd, SetLockedBit, WordAt;
      states, actions := ReadThenSections(k - 1);
      var last := states[|states| - 1];
      WordHasNoFlags(k - 1);
      BeginCounts(k - 1);
      EndCounts(k, 2);
      var a, b, c, d := OneSectionRuns(last);
      RunGoesOn(states, actions, ReadLock(1, 0), a);
      RunGoesOn(states + [a], actions + [ReadLock(1, 0)], Upgrade(1, 0), b);
      states, actions := states + [a] + [b], actions + [ReadLock(1, 0)] + [Upgrade(1, 0)];
      RunGoesOn(states, actions, Write(1, 0, 1), c);
      RunGoesOn(states + [c], actions + [Write(1, 0, 1)], WriteUnlock(1, 0), d);
      states, actions := states + [c] + [d], actions + [Write(1, 0, 1)] + [WriteUnlock(1, 0)];
    }
  }

  lemma WordHasNoFlags(sections: nat)
    ensures !IsLocked(WordAt(sections, false, false)) && !IsObsolete(WordAt(sections, false, false))
  {
    var x := 4 * sections;
    var w := WordAt(sections, false, false);
    assert x == 4 * (QUARTER * (x / WORDS)) + w;
    Flags(w);
  }

  /** The bound on the sections between read and validation cannot be dropped: there is a run in which
      the lock word of the last state is the version read in state 1, but the data changed. */
  lemma ValidationCanMissWrites()
    ensures exists states, actions :: IsRun(states, actions) && StaleButValid(states)
  {
    var states, actions := ReadThenSections(QUARTER);
    WordsRepeat(0, QUARTER, false);
    assert StaleButValid(states);
  }

  predicate StaleButValid(states: seq<State>)
  {
    && |states| >= 2 && |states[1].nodes| == 1 && |states[|states| - 1].nodes| == 1
    && HoldOf(states[1], 0, 0).Reading? && !HoldOf(states[1], 0, 0).restart
    && states[|states| - 1].nodes[0].lock == HoldOf(states[1], 0, 0).version
    && states[|states| - 1].nodes[0].data != HoldOf(states[1], 0, 0).seenData
  }
}
