/** The list of system variables: what its search finds although it stops early by a comparison that is
    not an order. */
module SysVarOrder {
  import opened Pmatch

  /** The invariant of the list: no entry makes a search for a later one stop. */
  ghost predicate Searchable(ls: seq<Str>)
  {
    && (forall i :: 0 <= i < |ls| ==> Plain(ls[i]))
    && (forall i, j :: 0 <= i < j < |ls| ==> !Below(ls[j], ls[i]) && !SameText(ls[j], ls[i]))
  }

  /** Where a search from `from` stops: at a match, at the first entry the pattern is below, or at the end. */
  function Stop(ls: seq<Str>, p: Str, from: nat): (k: nat)
    requires from <= |ls|
    ensures from <= k <= |ls|
    ensures forall i :: from <= i < k ==> Match(p, ls[i], SEARCH) < 0
    ensures k < |ls| ==> Match(p, ls[k], SEARCH) >= 0
    decreases |ls| - from
  {
    if from == |ls| || Match(p, ls[from], SEARCH) >= 0 then from else Stop(ls, p, from + 1)
  }

  // ---------------------------------------------------------------------------------------- texts

  lemma BelowAsym(a: Str, b: Str)
    ensures !(Below(a, b) && Below(b, a)) && !(Below(a, b) && SameText(a, b))
  {
  }

  lemma BelowSame(a: Str, a': Str, b: Str)
    requires SameText(a, a')
    ensures Below(a, b) ==> Below(a', b)
  {
    if Below(a, b) {
      var k :| FirstDifference(a, b, k);
      assert FirstDifference(a', b, k);
    }
  }

  /** If `x` did not have to stop at `b`, it need not stop at anything below `b`. */
  lemma PassesOver(x: Str, a: Str, b: Str)
    requires Below(a, b) && (x == b || (!Below(x, b) && !SameText(x, b)))
    ensures !Below(x, a) && !SameText(x, a)
  {
    var i :| FirstDifference(a, b, i);
    if SameText(x, a) {
      assert FirstDifference(x, b, i);
      BelowAsym(x, b);
      assert false;
    }
    if Below(x, a) {
      var m :| FirstDifference(x, a, m);
      assert FirstDifference(x, b, if m < i then m else i);
      BelowAsym(x, b);
      BelowAsym(b, a);
      assert false;
    }
  }

  // --------------------------------------------------------------------------------- plain labels

  /** A search for a plain label ends at the entry with that label if there is one. */
  lemma LookupFinds(ls: seq<Str>, p: Str, i: nat)
    requires Searchable(ls) && Plain(p) && i < |ls| && SameText(p, ls[i])
    ensures Stop(ls, p, 0) == i && Match(p, ls[i], SEARCH) == 0
  {
    PlainMatch(p, ls[i]);
    forall j | 0 <= j < i ensures Match(p, ls[j], SEARCH) < 0 {
      PlainMatch(p, ls[j]);
      PositiveIsBelow(p, ls[j]);
      BelowSame(p, ls[i], ls[j]);
    }
  }

  /** Lookup is sound and complete: it stops on a match if and only if the label is in the list. */
  lemma LookupComplete(ls: seq<Str>, p: Str)
    requires Searchable(ls) && Plain(p)
    ensures var k := Stop(ls, p, 0);
            (k < |ls| && Match(p, ls[k], SEARCH) == 0) <==> exists i :: 0 <= i < |ls| && SameText(p, ls[i])
  {
    var k := Stop(ls, p, 0);
    if k < |ls| { PlainMatch(p, ls[k]); }
    if i :| 0 <= i < |ls| && SameText(p, ls[i]) { LookupFinds(ls, p, i); }
  }

  function Insert<T>(s: seq<T>, k: nat, x: T): seq<T> requires k <= |s| { s[..k] + [x] + s[k..] }
  function Delete<T>(s: seq<T>, k: nat): seq<T> requires k < |s| { s[..k] + s[k + 1..] }

  /** How a new label relates to the entry at `i`, given where the search for it stopped. */
  lemma InsertRelates(ls: seq<Str>, p: Str, i: nat)
    requires Searchable(ls) && Plain(p) && i < |ls|
    requires var k := Stop(ls, p, 0); k < |ls| ==> Match(p, ls[k], SEARCH) != 0
    ensures i < Stop(ls, p, 0) ==> !Below(p, ls[i]) && !SameText(p, ls[i])
    ensures i >= Stop(ls, p, 0) ==> !Below(ls[i], p) && !SameText(ls[i], p)
  {
    var k := Stop(ls, p, 0);
    PlainMatch(p, ls[i]);
    PositiveIsBelow(p, ls[i]);
    if i >= k {
      PlainMatch(p, ls[k]);
      PositiveIsBelow(p, ls[k]);
      assert i != k ==> !Below(ls[i], ls[k]) && !SameText(ls[i], ls[k]);
      PassesOver(ls[i], p, ls[k]);
    }
  }

  /** Two entries of the list with a new label in its place. */
  lemma InsertedPair(ls: seq<Str>, p: Str, i: nat, j: nat)
    requires Searchable(ls) && Plain(p) && i < j <= |ls|
    requires var k := Stop(ls, p, 0); k < |ls| ==> Match(p, ls[k], SEARCH) != 0
    ensures var ls' := Insert(ls, Stop(ls, p, 0), p); Plain(ls'[i]) && Plain(ls'[j]) && !Below(ls'[j], ls'[i]) && !SameText(ls'[j], ls'[i])
  {
    hide Below, SameText, Match, Plain;
    var k := Stop(ls, p, 0);
    var i', j' := if i < k then i else i - 1, if j < k then j else j - 1;
    assert i != k ==> Insert(ls, k, p)[i] == ls[i'];
    assert j != k ==> Insert(ls, k, p)[j] == ls[j'];
    if i == k { InsertRelates(ls, p, j'); }
    if j == k { InsertRelates(ls, p, i'); }
  }

  /** A new label goes in where the search for it stopped, and the list stays searchable. */
  lemma InsertKeepsSearchable(ls: seq<Str>, p: Str)
    requires Searchable(ls) && Plain(p)
    requires var k := Stop(ls, p, 0); k < |ls| ==> Match(p, ls[k], SEARCH) != 0
    ensures Searchable(Insert(ls, Stop(ls, p, 0), p))
  {
    hide Below, SameText, Match, Plain, Stop;
    var ls' := Insert(ls, Stop(ls, p, 0), p);
    forall i, j | 0 <= i < j < |ls'| ensures Plain(ls'[i]) && Plain(ls'[j]) && !Below(ls'[j], ls'[i]) && !SameText(ls'[j], ls'[i]) {
      InsertedPair(ls, p, i, j);
    }
    assert |ls'| > 1 ==> forall i :: 0 <= i < |ls'| ==> Plain(ls'[i]) by {
      forall i | 0 <= i < |ls'| && |ls'| > 1 ensures Plain(ls'[i]) {
        if i == 0 { InsertedPair(ls, p, 0, 1); } else { InsertedPair(ls, p, 0, i); }
      }
    }
    assert |ls'| == 1 ==> ls'[0] == p;
  }

  lemma DeleteKeepsSearchable(ls: seq<Str>, k: nat)
    requires Searchable(ls) && k < |ls|
    ensures Searchable(Delete(ls, k))
  {
  }

  lemma SuffixKeepsSearchable(ls: seq<Str>, k: nat)
    requires Searchable(ls) && k <= |ls|
    ensures Searchable(ls[k..])
  {
    assert forall i :: 0 <= i < |ls| - k ==> ls[k..][i] == ls[k + i];
  }

  // -------------------------------------------------------------------------------------- patterns

  /** A walk with pattern `p` from `from` on does not stop short of a matching entry. */
  ghost predicate WalkReaches(ls: seq<Str>, p: Str, from: nat, i: nat)
    requires from <= i < |ls|
  {
    var k := Stop(ls, p, from);
    k <= i && Match(p, ls[k], SEARCH) == 0
  }

  ghost predicate WalksComplete(p: Str)
  {
    forall ls, from: nat, i: nat {:trigger WalkReaches(ls, p, from, i)} ::
      Searchable(ls) && from <= i < |ls| && Match(p, ls[i], SEARCH) == 0 ==> WalkReaches(ls, p, from, i)
  }

  lemma WalkIsComplete(ls: seq<Str>, p: Str, from: nat, i: nat)
    requires Searchable(ls) && HashesLast(p) && from <= i < |ls| && Match(p, ls[i], SEARCH) == 0
    ensures WalkReaches(ls, p, from, i)
  {
    var k := Stop(ls, p, from);
    assert k <= i;
    PositiveIsBelow(p, ls[k]);
    if Match(p, ls[k], SEARCH) > 0 {
      MatchStartsWithLead(p, ls[i]);
      var m :| FirstDifference(Lead(p), ls[k], m);
      assert FirstDifference(ls[i], ls[k], m);
      BelowAsym(ls[i], ls[k]);
      assert false;
    }
  }

  /** A string the pattern describes, every '#' standing for `c`. */
  function Instance(p: Str, c: ch): Str
  {
    if p == [] || p[0] == SPACE then [] else
    if p[0] == STAR then Instance(p[1..], c) else
    [if p[0] == HASH then c else p[0]] + Instance(p[1..], c)
  }

  lemma {:induction false} InstanceMatches(p: Str, c: ch)
    requires PlainChar(c)
    ensures Match(p, Instance(p, c), SEARCH) == 0 && Plain(Instance(p, c))
    decreases |p|
  {
    if p != [] && p[0] != SPACE {
      InstanceMatches(p[1..], c);
      if p[0] != STAR {
        assert Instance(p, c)[1..] == Instance(p[1..], c);
        forall i | 0 <= i < |Instance(p, c)| ensures PlainChar(Instance(p, c)[i]) {
          if i > 0 { assert Instance(p, c)[i] == Instance(p[1..], c)[i - 1]; }
        }
      }
    }
  }

  /** A string that agrees with the pattern up to a plain character after a '#' and is beyond it there. */
  function Overshoot(p: Str): Str
    requires !HashesOnly(p)
  {
    if p[0] == HASH || p[0] == 127 then [if p[0] == HASH then 97 else p[0]] + Overshoot(p[1..]) else [127]
  }

  lemma {:induction false} OvershootIsPositive(p: Str)
    requires !HashesOnly(p)
    ensures Match(p, Overshoot(p), SEARCH) > 0 && Plain(Overshoot(p))
    decreases |p|
  {
    if p[0] == HASH || p[0] == 127 {
      OvershootIsPositive(p[1..]);
      assert Overshoot(p)[1..] == Overshoot(p[1..]);
      forall i | 0 <= i < |Overshoot(p)| ensures PlainChar(Overshoot(p)[i]) {
        if i > 0 { assert Overshoot(p)[i] == Overshoot(p[1..])[i - 1]; }
      }
    }
  }

  /** Two labels, the second matching, such that the search stops at the first. */
  lemma {:induction false} MissedPair(p: Str) returns (x: Str, y: Str)
    requires !HashesLast(p)
    ensures Plain(x) && Plain(y) && Match(p, x, SEARCH) > 0 && Match(p, y, SEARCH) == 0
    ensures Below(x, y)
    decreases |p|
  {
    if p[0] == HASH {
      x := [97] + Overshoot(p[1..]);
      y := [98] + Instance(p[1..], 98);
      OvershootIsPositive(p[1..]);
      InstanceMatches(p[1..], 98);
      assert x[1..] == Overshoot(p[1..]) && y[1..] == Instance(p[1..], 98);
      assert FirstDifference(x, y, 0);
      PlainCons(97, Overshoot(p[1..]));
      PlainCons(98, Instance(p[1..], 98));
    } else {
      var x', y' := MissedPair(p[1..]);
      x, y := [p[0]] + x', [p[0]] + y';
      assert x[1..] == x' && y[1..] == y';
      BelowTail(x, y);
      PlainCons(p[0], x');
      PlainCons(p[0], y');
    }
  }

  lemma PlainCons(c: ch, s: Str)
    requires PlainChar(c) && Plain(s)
    ensures Plain([c] + s)
  {
  }

  /** Exactly which patterns can be relied on to visit every match: those without a plain character between
      a '#' and the next '*' (or the end). */
  lemma WalksCompleteExactly(p: Str)
    ensures WalksComplete(p) <==> HashesLast(p)
  {
    if HashesLast(p) {
      forall ls, from: nat, i: nat | Searchable(ls) && from <= i < |ls| && Match(p, ls[i], SEARCH) == 0
        ensures WalkReaches(ls, p, from, i)
      {
        WalkIsComplete(ls, p, from, i);
      }
    } else {
      var x, y := MissedPair(p);
      var ls := [x, y];
      BelowAsym(x, y);
      BelowAsym(y, x);
      assert !SameText(y, x);
      assert Searchable(ls);
      assert Match(p, ls[1], SEARCH) == 0;
      assert Stop(ls, p, 0) == 0;
      assert !WalkReaches(ls, p, 0, 1);
    }
  }

  lemma {:induction false} NoHashIsFine(p: Str)
    requires HASH !in p
    ensures HashesLast(p)
  {
    if p != [] { NoHashIsFine(p[1..]); }
  }
}

module SysVars {
  import opened Pmatch
  import opened SysVarOrder

  datatype VarType = TypeString | TypeNumber | TypeMacro | TypeExpanded | TypeLiteral | TypeCode

  /** What a variable's `value` field points at or holds. */
  datatype Value = Null | Text(text: Str) | Handle(n: int)

  /** What memory can be had for: the node, its label, the text of its value. */
  datatype Room = Room(forNode: bool, forLabel: bool, forText: bool)

  predicate OwnsText(t: VarType) { t == TypeMacro || t == TypeString }

  const FR_OK := 0
  const FR_INT_ERR := 2
  const MOS_OUT_OF_MEMORY := 22

  class Variable {
    var name: Str
    var kind: VarType
    var value: Value
    var next: Variable?

    constructor (name: Str, kind: VarType, value: Value)
      ensures this.name == name && this.kind == kind && this.value == value && next == null
    {
      this.name, this.kind, this.value, this.next := name, kind, value, null;
    }
  }

  class SystemVariables {
    var head: Variable?               // mosSystemVariables
    ghost var nodes: seq<Variable>

    ghost predicate Linked()
      reads this, nodes
    {
      && (forall i, j :: 0 <= i < j < |nodes| ==> nodes[i] != nodes[j])
      && head == (if nodes == [] then null else nodes[0])
      && (forall i {:trigger nodes[i].next} :: 0 <= i < |nodes| ==> nodes[i].next == if i + 1 < |nodes| then nodes[i + 1] else null)
    }

    ghost function Labels(): (ls: seq<Str>)
      reads this, nodes
      ensures |ls| == |nodes| && forall i :: 0 <= i < |ls| ==> ls[i] == nodes[i].name
    {
      seq(|nodes|, i requires 0 <= i < |nodes| reads this, nodes => nodes[i].name)
    }

    ghost predicate Valid()
      reads this, nodes
    {
      Linked() && Searchable(Labels())
    }

    ghost function IndexOf(v: Variable): (i: nat)
      requires v in nodes
      reads this
      ensures i < |nodes| && nodes[i] == v
    {
      var i :| 0 <= i < |nodes| && nodes[i] == v;
      i
    }

    /** The entry a search starts at. */
    ghost function Start(from: Variable?): (i: nat)
      requires from == null || from in nodes
      reads this
      ensures i <= |nodes|
    {
      if from == null then 0 else IndexOf(from) + 1
    }

    constructor ()
      ensures Valid() && nodes == []
    {
      head, nodes := null, [];
    }

    /** `getSystemVariable` */
    method GetSystemVariable(pattern: Str, from: Variable?) returns (result: int, found: Variable?)
      requires Linked() && (from == null || from in nodes)
      ensures var ls := Labels(); var start := Start(from); var k := Stop(ls, pattern, start);
              if k < |ls| && Match(pattern, ls[k], SEARCH) == 0 then result == 0 && found == nodes[k]
              else if k == start then result == -1 && found == null
              else result == Match(pattern, ls[if k < |ls| then k else k - 1], SEARCH) != 0 && found == nodes[k - 1]
    {
      hide Match, Searchable;
      ghost var ls, start := Labels(), Start(from);
      var current := if from == null then head else from.next;
      var matchResult := -1;
      found := null;
      ghost var i := start;
      while current != null
        invariant start <= i <= |nodes|
        invariant current == if i < |nodes| then nodes[i] else null
        invariant Stop(ls, pattern, start) == Stop(ls, pattern, i)
        invariant found == if i == start then null else nodes[i - 1]
        invariant matchResult < 0 && (i > start ==> matchResult == Match(pattern, ls[i - 1], SEARCH))
        decreases |nodes| - i
      {
        matchResult := Match(pattern, current.name, SEARCH);
        if matchResult <= 0 {
          found := current;
        }
        if matchResult == 0 {
          break;
        }
        if matchResult > 0 {
          break;
        }
        current := current.next;
        i := i + 1;
      }
      result := if found != null then matchResult else -1;
    }

    /** `insertSystemVariable` */
    method InsertSystemVariable(v: Variable, before: Variable?)
      requires Linked() && v !in nodes && (before == null || before in nodes)
      modifies this, nodes, v
      ensures Linked() && nodes == Insert(old(nodes), old(Start(before)), v)
      ensures forall n :: n in nodes ==> n.name == old(n.name) && n.kind == old(n.kind) && n.value == old(n.value)
    {
      ghost var k := Start(before);
      if before == null {
        v.next := head;
        head := v;
      } else {
        v.next := before.next;
        before.next := v;
      }
      nodes := Insert(nodes, k, v);
    }

    /** `findParentSystemVariable` */
    method FindParentSystemVariable(v: Variable) returns (parent: Variable?)
      requires Linked()
      ensures parent == if v in nodes && nodes[0] != v then nodes[IndexOf(v) - 1] else null
    {
      var current := head;
      parent := null;
      ghost var i := 0;
      while current != null
        invariant 0 <= i <= |nodes|
        invariant current == if i < |nodes| then nodes[i] else null
        invariant parent == if i == 0 then null else nodes[i - 1]
        invariant v !in nodes[..i]
        decreases |nodes| - i
      {
        if current == v {
          return parent;
        }
        parent := current;
        current := current.next;
        i := i + 1;
      }
      parent := null;
    }

    /** What is left of the list when `v` is removed.  For a node that is not in the list there is no predecessor, so the
        head is set to whatever follows that node. */
    ghost function Without(v: Variable): seq<Variable>
      requires v in nodes || v.next == null || v.next in nodes
      reads this, v
    {
      if v in nodes then Delete(nodes, IndexOf(v)) else if v.next == null then [] else nodes[IndexOf(v.next)..]
    }

    /** The relinking of a removal: it is the node's predecessor, or the head, that lets go of it. */
    method Unlink(v: Variable)
      requires Linked() && (v in nodes || v.next == null || v.next in nodes)
      modifies this, nodes
      ensures Linked() && nodes == old(Without(v))
      ensures forall n :: n in old(nodes) ==> n.name == old(n.name) && n.kind == old(n.kind) && n.value == old(n.value)
    {
      ghost var was, left, listed := nodes, Without(v), v in nodes;
      ghost var k := if v in nodes then IndexOf(v) else |nodes| - |left|;
      assert left == if listed then Delete(was, k) else was[k..];
      LinksOf();
      hide Linked, IndexOf;
      var parent := FindParentSystemVariable(v);
      if parent == null {
        head := v.next;
      } else {
        parent.next := v.next;
      }
      nodes := left;
      forall i | 0 <= i < |was| && (listed ==> i != k && i + 1 != k) ensures Follows(was, i) { assert old(Follows(was, i)); }
      if listed { LinkedWithout(was, k); } else { LinkedSuffix(was, k); }
    }

    ghost predicate Distinct(s: seq<Variable>) { forall i, j :: 0 <= i < j < |s| ==> s[i] != s[j] }

    /** Node `i` of `s` points to the next one. */
    ghost predicate Follows(s: seq<Variable>, i: nat)
      requires i < |s|
      reads s
    {
      s[i].next == if i + 1 < |s| then s[i + 1] else null
    }

    lemma LinksOf()
      requires Linked()
      ensures Distinct(nodes) && head == (if nodes == [] then null else nodes[0])
      ensures forall i :: 0 <= i < |nodes| ==> Follows(nodes, i)
    {
    }

    lemma LinkedWithout(was: seq<Variable>, k: nat)
      requires k < |was| && Distinct(was) && nodes == Delete(was, k)
      requires forall i :: 0 <= i < |was| && i != k && i + 1 != k ==> Follows(was, i)
      requires k > 0 ==> was[k - 1].next == if k + 1 < |was| then was[k + 1] else null
      requires head == if k > 0 then was[0] else if |was| == 1 then null else was[1]
      ensures Linked()
    {
      forall i | 0 <= i < |nodes| ensures nodes[i].next == if i + 1 < |nodes| then nodes[i + 1] else null {
        assert nodes[i] == if i < k then was[i] else was[i + 1];
        assert i + 1 < k || i >= k ==> Follows(was, if i < k then i else i + 1);
      }
    }

    lemma LinkedSuffix(was: seq<Variable>, k: nat)
      requires k <= |was| && Distinct(was) && nodes == was[k..]
      requires forall i :: 0 <= i < |was| ==> Follows(was, i)
      requires head == if k < |was| then was[k] else null
      ensures Linked()
    {
      forall i | 0 <= i < |nodes| ensures nodes[i].next == if i + 1 < |nodes| then nodes[i + 1] else null {
        assert Follows(was, k + i);
      }
    }

    /** `removeSystemVariable`: right for a variable that is in the list; for any other it drops the list up to what
        follows that variable. */
    method RemoveSystemVariable(v: Variable)
      requires Valid() && (v in nodes || v.next == null || v.next in nodes)
      modifies this, nodes
      ensures Valid() && nodes == old(Without(v))
      ensures forall n :: n in nodes ==> n.name == old(n.name) && n.kind == old(n.kind) && n.value == old(n.value)
    {
      hide Linked, Searchable;
      ghost var ls, left := Labels(), Without(v);
      ghost var listed, k := v in nodes, if v in nodes then IndexOf(v) else if v.next == null then |nodes| else IndexOf(v.next);
      Unlink(v);
      if listed {
        DeleteKeepsSearchable(ls, k);
        assert Labels() == Delete(ls, k);
      } else {
        SuffixKeepsSearchable(ls, k);
        assert Labels() == ls[k..];
      }
    }

    /** `updateSystemVariable`.  `room` says whether memory for the text could be had, `writeStatus` is what the
        setter of a code variable answers. */
    method UpdateSystemVariable(v: Variable, kind: VarType, value: Value, room: bool, writeStatus: int) returns (status: int)
      modifies v
      ensures v.name == old(v.name) && v.next == old(v.next)
      ensures old(v.kind) == TypeCode ==> v.kind == TypeCode && v.value == old(v.value) && status == writeStatus
      ensures old(v.kind) != TypeCode ==> v.kind == kind
      ensures old(v.kind) != TypeCode && (room || !OwnsText(kind)) ==> v.value == value && status == FR_OK
      ensures old(v.kind) != TypeCode && !(room || !OwnsText(kind)) ==>
                status == MOS_OUT_OF_MEMORY && v.value == if OwnsText(old(v.kind)) then old(v.value) else Null
    {
      var oldType := v.kind;
      if oldType == TypeCode {
        return writeStatus;
      }
      v.kind := kind;
      if kind == TypeMacro || kind == TypeString {
        if oldType == TypeMacro || oldType == TypeString {
          if !room { return MOS_OUT_OF_MEMORY; }
        } else {
          if !room { v.value := Null; return MOS_OUT_OF_MEMORY; }
        }
        v.value := value;
      } else {
        v.value := value;
      }
      status := FR_OK;
    }

    /** The end of `createOrUpdateSystemVariable`: a variable whose name is not in the list yet. */
    method AddVariable(name: Str, kind: VarType, value: Value, before: Variable?)
      requires Valid() && Plain(name) && (before == null || before in nodes)
      requires var k := Stop(Labels(), name, 0); Start(before) == k && (k < |nodes| ==> !SameText(name, Labels()[k]))
      modifies this, nodes
      ensures Valid()
      ensures var k := old(Stop(Labels(), name, 0));
              && |nodes| == |old(nodes)| + 1 && fresh(nodes[k]) && nodes == Insert(old(nodes), k, nodes[k])
              && Labels() == Insert(old(Labels()), k, name)
              && nodes[k].kind == kind && nodes[k].value == value
      ensures forall n :: n in old(nodes) ==> n.kind == old(n.kind) && n.value == old(n.value)
    {
      hide Searchable, SameText, Match, Stop, Plain;
      ghost var ls, k, was := Labels(), Stop(Labels(), name, 0), nodes;
      if k < |ls| { PlainMatch(name, ls[k]); }
      InsertKeepsSearchable(ls, name);
      hide Linked, Insert, Start;
      assert Linked();
      var newVar := new Variable(name, kind, value);
      InsertSystemVariable(newVar, before);
      InsertPuts(was, k, newVar);
      LabelsAfterInsert(ls, was, k, newVar);
    }

    lemma InsertPuts(was: seq<Variable>, k: nat, v: Variable)
      requires k <= |was|
      ensures |Insert(was, k, v)| == |was| + 1 && Insert(was, k, v)[k] == v
      ensures forall n :: n in was ==> n in Insert(was, k, v)
    {
    }

    lemma LabelsAfterInsert(ls: seq<Str>, was: seq<Variable>, k: nat, v: Variable)
      requires k <= |was| == |ls| && nodes == Insert(was, k, v)
      requires forall i :: 0 <= i < |was| ==> was[i].name == ls[i]
      ensures Labels() == Insert(ls, k, v.name)
    {
    }

    /** What an update leaves in a variable. */
    static predicate Updated(was: VarType, before: Value, now: VarType, after: Value, status: int,
                             kind: VarType, value: Value, room: bool, writeStatus: int)
    {
      if was == TypeCode then now == TypeCode && after == before && status == writeStatus
      else
        && now == kind
        && (room || !OwnsText(kind) ==> after == value && status == FR_OK)
        && (!room && OwnsText(kind) ==> after == (if OwnsText(was) then before else Null) && status == MOS_OUT_OF_MEMORY)
    }

    /** An update of a variable in the list leaves the list as it is. */
    method UpdateInList(v: Variable, kind: VarType, value: Value, room: bool, writeStatus: int) returns (status: int)
      requires Valid() && v in nodes
      modifies v
      ensures Valid() && nodes == old(nodes) && Labels() == old(Labels())
      ensures Updated(old(v.kind), old(v.value), v.kind, v.value, status, kind, value, room, writeStatus)
    {
      hide Searchable;
      ghost var ls := Labels();
      status := UpdateSystemVariable(v, kind, value, room, writeStatus);
      assert Labels() == ls;
    }

    /** The search for a plain label, from the head of the list. */
    method SearchLabel(name: Str) returns (result: int, v: Variable?)
      requires Linked() && Plain(name)
      ensures var k := Stop(Labels(), name, 0);
              && (result == 0 <==> k < |nodes| && SameText(name, Labels()[k]))
              && v == (if result == 0 then nodes[k] else if k == 0 then null else nodes[k - 1])
    {
      hide SameText, Match, Stop, Plain;
      ghost var ls, k := Labels(), Stop(Labels(), name, 0);
      if k < |ls| { PlainMatch(name, ls[k]); }
      result, v := GetSystemVariable(name, null);
    }

    /** What a new variable holds: a text is copied, if there is memory for it. */
    method OwnValue(kind: VarType, value: Value, room: bool) returns (own: Value)
      ensures own == if OwnsText(kind) && !room then Null else value
    {
      own := if (kind == TypeMacro || kind == TypeString) && !room then Null else value;
    }

    /** `createOrUpdateSystemVariable` for a plain label. */
    method CreateOrUpdateSystemVariable(name: Str, kind: VarType, value: Value, room: Room, writeStatus: int) returns (status: int)
      requires Valid() && Plain(name)
      modifies this, nodes
      ensures Valid()
      ensures var k := old(Stop(Labels(), name, 0));
              if k < |old(nodes)| && SameText(name, old(Labels())[k]) then
                // the variable of that name is updated where it is
                && nodes == old(nodes) && Labels() == old(Labels())
                && Updated(old(nodes[k].kind), old(nodes[k].value), nodes[k].kind, nodes[k].value, status, kind, value, room.forText, writeStatus)
                && (forall n :: n in nodes && n != nodes[k] ==> n.kind == old(n.kind) && n.value == old(n.value))
              else if room.forNode && room.forLabel then
                // a new variable joins the list, with its text if there was memory for it; nothing else changes
                && status == FR_OK && |nodes| == |old(nodes)| + 1 && fresh(nodes[k])
                && nodes == Insert(old(nodes), k, nodes[k]) && Labels() == Insert(old(Labels()), k, name)
                && nodes[k].kind == kind && nodes[k].value == (if OwnsText(kind) && !room.forText then Null else value)
                && (forall n :: n in old(nodes) ==> n.kind == old(n.kind) && n.value == old(n.value))
              else status == FR_INT_ERR && nodes == old(nodes) && Labels() == old(Labels())
    {
      hide Valid, Searchable, SameText, Match, Stop, Plain, Updated, OwnsText, Linked, Insert;
      ValidIsLinked();
      var result, v := SearchLabel(name);
      if result == 0 {
        status := UpdateInList(v, kind, value, room.forText, writeStatus);
        return;
      }
      if !room.forNode || !room.forLabel { return FR_INT_ERR; }
      var own := OwnValue(kind, value, room.forText);
      AddVariable(name, kind, own, v);
      status := FR_OK;
    }

    /** Lookup of a plain label: success exactly when the list has it, and then with that entry. */
    method Lookup(name: Str) returns (result: int, found: Variable?)
      requires Valid() && Plain(name)
      ensures result == 0 <==> exists i :: 0 <= i < |nodes| && SameText(name, Labels()[i])
      ensures result == 0 ==> found != null && found in nodes && SameText(name, found.name)
    {
      hide Match, Stop, Searchable, SameText, Plain, Linked;
      assert Linked() && Searchable(Labels()) by { ValidIsLinked(); }
      LookupComplete(Labels(), name);
      ghost var k := Stop(Labels(), name, 0);
      if k < |nodes| { PlainMatch(name, Labels()[k]); }
      result, found := GetSystemVariable(name, null);
    }

    /** The entries from `i` on that match, in list order. */
    ghost function Matching(pattern: Str, i: nat): seq<Variable>
      requires i <= |nodes|
      reads this, nodes
      decreases |nodes| - i
    {
      if i == |nodes| then []
      else (if Match(pattern, nodes[i].name, SEARCH) == 0 then [nodes[i]] else []) + Matching(pattern, i + 1)
    }

    lemma SkipTo(pattern: Str, i: nat, k: nat)
      requires i <= k <= |nodes|
      requires forall j :: i <= j < k ==> Match(pattern, nodes[j].name, SEARCH) != 0
      ensures Matching(pattern, i) == Matching(pattern, k)
      decreases k - i
    {
      if i < k { SkipTo(pattern, i + 1, k); }
    }

    lemma MatchingAt(pattern: Str, k: nat)
      requires k < |nodes| && Match(pattern, nodes[k].name, SEARCH) == 0
      ensures Matching(pattern, k) == [nodes[k]] + Matching(pattern, k + 1)
    {
    }

    lemma NoneLeft(pattern: Str, start: nat)
      requires Valid() && HashesLast(pattern) && start <= |nodes|
      requires var k := Stop(Labels(), pattern, start); k < |nodes| ==> Match(pattern, Labels()[k], SEARCH) != 0
      ensures Matching(pattern, start) == []
    {
      forall j | start <= j < |nodes| ensures Match(pattern, nodes[j].name, SEARCH) != 0 {
        if Match(pattern, Labels()[j], SEARCH) == 0 { WalkIsComplete(Labels(), pattern, start, j); }
      }
      SkipTo(pattern, start, |nodes|);
    }

    lemma ValidIsLinked()
      requires Valid()
      ensures Linked() && Searchable(Labels())
    {
    }

    /** One search of the loop of SHOW: it leads to the next entry that matches, or past all of them. */
    method NextMatch(pattern: Str, from: Variable?) returns (result: int, v: Variable?)
      requires Valid() && (from == null || from in nodes)
      ensures result == 0 ==> v != null && v in nodes && Start(v) > Start(from)
      ensures result == 0 ==> Matching(pattern, Start(from)) == [v] + Matching(pattern, Start(v))
      ensures result != 0 && HashesLast(pattern) ==> Matching(pattern, Start(from)) == []
    {
      hide Match, Searchable, HashesLast, Stop, Matching;
      ghost var start := Start(from);
      ghost var k := Stop(Labels(), pattern, start);
      result, v := GetSystemVariable(pattern, from);
      if result == 0 {
        SkipTo(pattern, start, k);
        MatchingAt(pattern, k);
        assert Start(v) == k + 1;
      } else if HashesLast(pattern) {
        NoneLeft(pattern, start);
      }
    }

    /** The loop of the SHOW command: matching variables only, each once and in list order; and for a pattern
        on which walks are complete, all of them. */
    method Show(pattern: Str) returns (shown: seq<Variable>)
      requires Valid()
      ensures shown <= Matching(pattern, 0)
      ensures HashesLast(pattern) ==> shown == Matching(pattern, 0)
    {
      hide Match, Searchable, HashesLast, Stop, Matching, Linked;
      shown := [];
      var result, v := NextMatch(pattern, null);
      while result == 0
        invariant result == 0 ==> v != null && v in nodes && shown + ([v] + Matching(pattern, Start(v))) == Matching(pattern, 0)
        invariant result != 0 ==> shown <= Matching(pattern, 0) && (HashesLast(pattern) ==> shown == Matching(pattern, 0))
        decreases if result == 0 then |nodes| - Start(v) + 1 else 0
      {
        ghost var rest := Matching(pattern, Start(v));
        assert shown + ([v] + rest) == (shown + [v]) + rest;
        shown := shown + [v];
        result, v := NextMatch(pattern, v);
      }
    }
  }
}
