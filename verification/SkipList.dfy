/** The skip list of a memtable, one pointer store at a time: a single writer links nodes level
    by level while any number of readers search. */
module SkipList {
  const MAX_HEIGHT: nat := 12

  // A node is known by its key, and keys are known by their rank.  Head is before every key.
  datatype Node = Head | At(key: int)

  datatype Pointer = Null | To(key: int)

  // The level-i links that have been stored, by node.
  type Links = seq<map<Node, Pointer>>

  predicate Reaches(x: Node, key: int) {
    x.Head? || x.key < key
  }

  // p is the first key of the set after x.
  ghost predicate IsSuccessor(keys: set<int>, x: Node, p: Pointer) {
    match p
    case Null => forall k :: k in keys ==> !Reaches(x, k)
    case To(n) => n in keys && Reaches(x, n) && forall k :: k in keys && Reaches(x, k) ==> n <= k
  }

  // x is the last key of the set before key, or the head.
  ghost predicate IsPredecessor(keys: set<int>, key: int, x: Node) {
    && (x.At? ==> x.key in keys && x.key < key)
    && forall k :: k in keys && k < key ==> !Reaches(x, k)
  }

  // p is the first key of the set that is not before key.
  ghost predicate IsFirstAtOrAfter(keys: set<int>, key: int, p: Pointer) {
    match p
    case Null => forall k :: k in keys ==> k < key
    case To(n) => n in keys && key <= n && forall k :: k in keys && key <= k ==> n <= k
  }

  ghost predicate OnLevel(keys: set<int>, x: Node) {
    x.At? ==> x.key in keys
  }

  ghost function After(keys: set<int>, x: Node): set<int> {
    set k | k in keys && Reaches(x, k)
  }

  // ----- searching a list that stands still -----

  // Level i of the links is the sorted chain of the keys in levels[i], and every level is
  // contained in the level below.
  ghost predicate Chained(links: Links, levels: seq<set<int>>) {
    && |links| == |levels| == MAX_HEIGHT
    && (forall i, x :: 0 <= i < MAX_HEIGHT && OnLevel(levels[i], x) ==> x in links[i] && IsSuccessor(levels[i], x, links[i][x]))
    && (forall i, j :: 0 <= i < j < MAX_HEIGHT ==> levels[j] <= levels[i])
  }

  /** The search of Insert: the first node at or after key, and the node before key on every
      level in use. */
  method FindGreaterOrEqual(links: Links, maxHeight: nat, key: int, ghost levels: seq<set<int>>) returns (r: Pointer, prev: seq<Node>)
    requires Chained(links, levels) && 1 <= maxHeight <= MAX_HEIGHT
    ensures |prev| == maxHeight
    ensures forall i :: 0 <= i < maxHeight ==> IsPredecessor(levels[i], key, prev[i])
    ensures IsFirstAtOrAfter(levels[0], key, r)
  {
    prev := seq(maxHeight, _ => Head);
    var x := Head;
    var level := maxHeight - 1;
    while true
      invariant 0 <= level < maxHeight && |prev| == maxHeight
      invariant OnLevel(levels[level], x) && Reaches(x, key)
      invariant forall i :: level < i < maxHeight ==> IsPredecessor(levels[i], key, prev[i])
      decreases level, After(levels[level], x)
    {
      var next := links[level][x];
      if next.To? && next.key < key {
        assert After(levels[level], At(next.key)) <= After(levels[level], x);
        assert next.key in After(levels[level], x) && next.key !in After(levels[level], At(next.key));
        x := At(next.key);
      } else {
        prev := prev[level := x];
        if level == 0 {
          return next, prev;
        }
        level := level - 1;
      }
    }
  }

  // ----- the state machine -----

  // The writer between the stores of Insert.  ownSet: the new node's link at this level is set
  // but not yet published.
  datatype Writer = Idle | Inserting(key: int, height: nat, prev: seq<Node>, heightSet: bool, level: nat, ownSet: bool)

  // What a search is looking for.
  datatype Goal = AtOrAfter(key: int) | Before(key: int) | Last

  datatype Answer = Found(p: Pointer) | Stopped(x: Node)

  datatype Reader = Searching(goal: Goal, x: Node, level: nat) | Finished(goal: Goal, answer: Answer)

  datatype State = State(links: Links, maxHeight: nat, writer: Writer, readers: map<nat, Reader>, ghost levels: seq<set<int>>)

  predicate Advances(goal: Goal, p: Pointer) {
    p.To? && (goal.Last? || p.key < goal.key)
  }

  ghost predicate Init(s: State) {
    && |s.links| == |s.levels| == MAX_HEIGHT
    && (forall i :: 0 <= i < MAX_HEIGHT ==> s.links[i] == map[Head := Null] && s.levels[i] == {})
    && s.maxHeight == 1 && s.writer == Idle && s.readers == map[]
  }

  // The search has been done; its predecessors are those of the list, and the head above.
  ghost predicate StartInsert(s: State, s': State, key: int, height: nat) {
    && s.writer.Idle? && |s.levels| == MAX_HEIGHT && key !in s.levels[0] && 1 <= height <= MAX_HEIGHT
    && s'.writer.Inserting? && s'.writer.key == key && s'.writer.height == height
    && |s'.writer.prev| == MAX_HEIGHT
    && (forall i :: 0 <= i < height ==>
          if i < s.maxHeight then IsPredecessor(s.levels[i], key, s'.writer.prev[i]) else s'.writer.prev[i] == Head)
    && !s'.writer.heightSet && s'.writer.level == 0 && !s'.writer.ownSet
    && s' == s.(writer := s'.writer)
  }

  ghost predicate SetMaxHeight(s: State, s': State) {
    && s.writer.Inserting? && !s.writer.heightSet
    && s' == s.(writer := s.writer.(heightSet := true),
                maxHeight := if s.writer.height > s.maxHeight then s.writer.height else s.maxHeight)
  }

  // The new node takes over the successor of its predecessor on this level.
  ghost predicate SetOwnLink(s: State, s': State) {
    && s.writer.Inserting? && s.writer.heightSet && !s.writer.ownSet
    && var w := s.writer;
       && w.level < w.height <= MAX_HEIGHT && |s.links| == MAX_HEIGHT && |w.prev| == MAX_HEIGHT
       && w.prev[w.level] in s.links[w.level]
       && s' == s.(links := s.links[w.level := s.links[w.level][At(w.key) := s.links[w.level][w.prev[w.level]]]],
                   writer := w.(ownSet := true))
  }

  // The predecessor found on this level is made to point at the new node.
  ghost predicate Publish(s: State, s': State) {
    && s.writer.Inserting? && s.writer.ownSet
    && var w := s.writer;
       && w.level < w.height <= MAX_HEIGHT && |s.links| == |s.levels| == MAX_HEIGHT && |w.prev| == MAX_HEIGHT
       && s' == s.(links := s.links[w.level := s.links[w.level][w.prev[w.level] := To(w.key)]],
                   levels := s.levels[w.level := s.levels[w.level] + {w.key}],
                   writer := if w.level + 1 == w.height then Idle else w.(level := w.level + 1, ownSet := false))
  }

  ghost predicate StartSearch(s: State, s': State, id: nat, goal: Goal) {
    id !in s.readers && s.maxHeight >= 1 && s' == s.(readers := s.readers[id := Searching(goal, Head, s.maxHeight - 1)])
  }

  // One atomic read of a link, and what the search does with it.
  ghost predicate ReadLink(s: State, s': State, id: nat) {
    && id in s.readers && s.readers[id].Searching?
    && var r := s.readers[id];
       && r.level < |s.links| && r.x in s.links[r.level]
       && var next := s.links[r.level][r.x];
          s' == s.(readers := s.readers[id :=
            if Advances(r.goal, next) then r.(x := At(next.key))
            else if r.level > 0 then r.(level := r.level - 1)
            else Finished(r.goal, if r.goal.AtOrAfter? then Found(next) else Stopped(r.x))])
  }

  datatype Action = DoStart(key: int, height: nat) | DoHeight | DoOwn | DoPublish | DoSearch(id: nat, goal: Goal) | DoRead(reader: nat)

  ghost predicate Step(s: State, s': State, a: Action) {
    match a
    case DoStart(key, height) => StartInsert(s, s', key, height)
    case DoHeight => SetMaxHeight(s, s')
    case DoOwn => SetOwnLink(s, s')
    case DoPublish => Publish(s, s')
    case DoSearch(id, goal) => StartSearch(s, s', id, goal)
    case DoRead(id) => ReadLink(s, s', id)
  }

  // ----- invariant -----

  // The levels of the list seen by the writer: prev is right, and what is done is done.
  ghost predicate WriterInv(s: State)
    requires |s.links| == |s.levels| == MAX_HEIGHT
  {
    s.writer.Inserting? ==>
      var w := s.writer;
      && 1 <= w.height <= MAX_HEIGHT && |w.prev| == MAX_HEIGHT && w.level < w.height
      && (!w.heightSet ==> w.level == 0 && !w.ownSet)
      && (w.heightSet ==> w.height <= s.maxHeight)
      && (forall i :: 0 <= i < w.level ==> w.key in s.levels[i])
      && (forall i :: w.level <= i < MAX_HEIGHT ==> w.key !in s.levels[i])
      && (forall i :: w.level <= i < w.height ==> OnLevel(s.levels[i], w.prev[i]) && IsPredecessor(s.levels[i], w.key, w.prev[i]))
      && (w.ownSet ==> At(w.key) in s.links[w.level] && w.prev[w.level] in s.links[w.level] && s.links[w.level][At(w.key)] == s.links[w.level][w.prev[w.level]])
  }

  ghost predicate ReaderInv(r: Reader, levels: seq<set<int>>)
    requires |levels| == MAX_HEIGHT
  {
    r.Searching? ==> r.level < MAX_HEIGHT && OnLevel(levels[r.level], r.x) && (r.x.At? ==> Advances(r.goal, To(r.x.key)))
  }

  ghost predicate Inv(s: State) {
    && Chained(s.links, s.levels)
    && 1 <= s.maxHeight <= MAX_HEIGHT
    && (forall i :: s.maxHeight <= i < MAX_HEIGHT ==> s.levels[i] == {})
    && WriterInv(s)
    && forall id :: id in s.readers ==> ReaderInv(s.readers[id], s.levels)
  }

  lemma InitInv(s: State)
    requires Init(s)
    ensures Inv(s)
  {
  }

  /** After every single store, each level is the sorted chain of its keys and is contained in
      the level below, and no reader can reach a link that has not been set. */
  lemma StepKeepsInv(s: State, s': State, a: Action)
    requires Inv(s) && Step(s, s', a)
    ensures Inv(s')
  {
    match a {
      case DoStart(key, height) => StartKeepsInv(s, s', key, height);
      case DoHeight =>
      case DoOwn => OwnKeepsInv(s, s');
      case DoPublish => PublishKeepsInv(s, s');
      case DoSearch(id, goal) =>
      case DoRead(id) => ReadKeepsInv(s, s', id);
    }
  }

  lemma StartKeepsInv(s: State, s': State, key: int, height: nat)
    requires Inv(s) && StartInsert(s, s', key, height)
    ensures Inv(s')
  {
    forall i | 0 <= i < MAX_HEIGHT ensures key !in s.levels[i] {
      NotBelowNotAbove(s.links, s.levels, key, i);
    }
  }

  lemma {:induction false} NotBelowNotAbove(links: Links, levels: seq<set<int>>, key: int, i: nat)
    requires Chained(links, levels) && i < MAX_HEIGHT && key !in levels[0]
    ensures key !in levels[i]
  {
    if i > 0 {
      NotBelowNotAbove(links, levels, key, i - 1);
    }
  }

  lemma OwnKeepsInv(s: State, s': State)
    requires Inv(s) && SetOwnLink(s, s')
    ensures Inv(s')
  {
  }

  lemma PublishKeepsInv(s: State, s': State)
    requires Inv(s) && Publish(s, s')
    ensures Inv(s')
  {
  }

  lemma ReadKeepsInv(s: State, s': State, id: nat)
    requires Inv(s) && ReadLink(s, s', id)
    ensures Inv(s')
  {
  }

  // ----- what a search and an insert achieve -----

  // The nodes a list of these keys gives for a goal.
  ghost predicate Answers(keys: set<int>, goal: Goal, answer: Answer) {
    match goal
    case AtOrAfter(key) =>
      && answer.Found?
      && IsFirstAtOrAfter(keys, key, answer.p)
    case Before(key) => answer.Stopped? && IsPredecessor(keys, key, answer.x)
    case Last => answer.Stopped? && OnLevel(keys, answer.x) && forall k :: k in keys ==> !Reaches(answer.x, k)
  }

  /** The read that ends a search returns the node that the lowest level has at that moment. */
  lemma LastReadAnswers(s: State, s': State, id: nat)
    requires Inv(s) && ReadLink(s, s', id) && s'.readers[id].Finished?
    ensures s'.readers[id].goal == s.readers[id].goal
    ensures Answers(s.levels[0], s.readers[id].goal, s'.readers[id].answer)
    ensures s'.levels == s.levels
  {
    var r := s.readers[id];
    assert IsSuccessor(s.levels[0], r.x, s.links[0][r.x]);
  }

  /** The last store of Insert leaves the key on exactly the levels below its height, and
      nothing else has changed since the state the insert started from. */
  lemma PublishAddsKey(s: State, s': State)
    requires Inv(s) && Publish(s, s')
    ensures forall i :: 0 <= i < MAX_HEIGHT ==> (s.writer.key in s'.levels[i] <==> i <= s.writer.level)
    ensures forall i :: 0 <= i < MAX_HEIGHT ==> s'.levels[i] - {s.writer.key} == s.levels[i] - {s.writer.key}
    ensures s'.writer.Idle? <==> s.writer.level + 1 == s.writer.height
  {
  }

  ghost predicate IsRun(states: seq<State>, actions: seq<Action>) {
    && |states| == |actions| + 1
    && forall i :: 0 <= i < |actions| ==> Step(states[i], states[i + 1], actions[i])
  }

  lemma {:induction false} RunKeepsInv(states: seq<State>, actions: seq<Action>, n: nat)
    requires IsRun(states, actions) && Inv(states[0]) && n < |states|
    ensures Inv(states[n])
  {
    if n > 0 {
      RunKeepsInv(states, actions, n - 1);
      StepKeepsInv(states[n - 1], states[n], actions[n - 1]);
    }
  }

  lemma {:induction false} LevelsGrow(states: seq<State>, actions: seq<Action>, m: nat, n: nat, i: nat)
    requires IsRun(states, actions) && Inv(states[0]) && m <= n < |states| && i < MAX_HEIGHT
    ensures Inv(states[m]) && Inv(states[n]) && states[m].levels[i] <= states[n].levels[i]
  {
    RunKeepsInv(states, actions, m);
    RunKeepsInv(states, actions, n);
    if m < n {
      LevelsGrow(states, actions, m, n - 1, i);
    }
  }

  lemma {:induction false} SearchKeepsGoal(states: seq<State>, actions: seq<Action>, m: nat, n: nat, id: nat)
    requires IsRun(states, actions) && m <= n < |states| && id in states[m].readers
    ensures id in states[n].readers && states[n].readers[id].goal == states[m].readers[id].goal
  {
    if m < n {
      SearchKeepsGoal(states, actions, m, n - 1, id);
      assert Step(states[n - 1], states[n - 1 + 1], actions[n - 1]);
    }
  }

  /** Over any interleaving, a search that begins in state m and ends in state n returns the
      right node for a set of keys that holds every key inserted before it began and no key
      that is not in the list when it ends. */
  lemma SearchSeesInsertedKeys(states: seq<State>, actions: seq<Action>, m: nat, n: nat, id: nat, goal: Goal)
    requires IsRun(states, actions) && Init(states[0]) && m < n < |states|
    requires actions[m] == DoSearch(id, goal)
    requires actions[n - 1] == DoRead(id) && id in states[n].readers && states[n].readers[id].Finished?
    ensures |states[m].levels| == |states[n].levels| == MAX_HEIGHT
    ensures states[m].levels[0] <= states[n].levels[0]
    ensures Answers(states[n].levels[0], goal, states[n].readers[id].answer)
  {
    InitInv(states[0]);
    LevelsGrow(states, actions, m, n, 0);
    RunKeepsInv(states, actions, n - 1);
    assert Step(states[m], states[m + 1], actions[m]);
    assert Step(states[n - 1], states[n - 1 + 1], actions[n - 1]);
    SearchKeepsGoal(states, actions, m + 1, n - 1, id);
    LastReadAnswers(states[n - 1], states[n], id);
  }
}
