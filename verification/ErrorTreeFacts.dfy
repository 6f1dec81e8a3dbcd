/** When the nested error tree keeps every message, and how nesting commutes with prefixing. */
module ErrorTreeFacts {
  import opened Wrappers
  import opened ErrorTree

  // ---------------------------------------------------------------------------
  // What a tree stands for
  // ---------------------------------------------------------------------------

  /** The issues below one segment, with that segment taken off. */
  function Sub(ms: seq<Issue>, seg: PathSeg): seq<Issue> {
    if ms == [] then []
    else
      var rest := Sub(ms[..|ms| - 1], seg);
      var last := ms[|ms| - 1];
      if last.path != [] && last.path[0] == seg then rest + [Issue(last.path[1..], last.message)] else rest
  }

  ghost predicate Below(ms: seq<Issue>, field: bool) {
    forall i :: 0 <= i < |ms| ==> ms[i].path != [] && (if field then ms[i].path[0].Field? else ms[i].path[0].Index?)
  }

  ghost predicate Holds(items: seq<Tree>, ms: seq<Issue>) {
    |items| == |ms| && forall i :: 0 <= i < |ms| ==> ms[i].path == [] && items[i] == Leaf(ms[i].message)
  }

  /** The tree t holds exactly the issues ms: their paths are canonical and start at t. */
  ghost predicate Represents(t: Tree, ms: seq<Issue>) {
    match t
    case Null => ms == []
    case Leaf(_) => false
    case Obj(entries) =>
      && Below(ms, true)
      && (forall k :: k in entries <==> Sub(ms, Field(k)) != [])
      && (forall k :: k in entries ==> Represents(entries[k], Sub(ms, Field(k))))
    case Arr(items) =>
      && ms != []
      && (|| Holds(items, ms)
          || (&& Below(ms, false)
              && (forall i :: 0 <= i < |ms| ==> ms[i].path[0].idx < |items|)
              && (forall i :: 0 <= i < |items| ==> (items[i] == Null <==> Sub(ms, Index(i)) == []))
              && (forall i :: 0 <= i < |items| ==> Represents(items[i], Sub(ms, Index(i))))))
  }

  lemma SubSnoc(ms: seq<Issue>, x: Issue, seg: PathSeg)
    ensures Sub(ms + [x], seg) ==
            if x.path != [] && x.path[0] == seg then Sub(ms, seg) + [Issue(x.path[1..], x.message)] else Sub(ms, seg)
  {
    assert (ms + [x])[..|ms|] == ms;
  }

  lemma {:induction false} SubOrigin(ms: seq<Issue>, seg: PathSeg, j: nat) returns (i: nat)
    requires j < |Sub(ms, seg)|
    ensures i < |ms| && ms[i].path != [] && ms[i].path[0] == seg
    ensures Sub(ms, seg)[j] == Issue(ms[i].path[1..], ms[i].message)
  {
    var init := ms[..|ms| - 1];
    if j < |Sub(init, seg)| {
      i := SubOrigin(init, seg, j);
    } else {
      i := |ms| - 1;
    }
  }

  lemma {:induction false} SubNonEmpty(ms: seq<Issue>, i: nat)
    requires i < |ms| && ms[i].path != []
    ensures Sub(ms, ms[i].path[0]) != []
  {
    if i < |ms| - 1 {
      SubNonEmpty(ms[..|ms| - 1], i);
    }
  }

  lemma SubNoClash(ms: seq<Issue>, s: seq<PathSeg>, top: bool)
    requires s != []
    requires forall i :: 0 <= i < |ms| ==> !Clash(ms[i].path, s, top)
    ensures forall j :: 0 <= j < |Sub(ms, s[0])| ==> !Clash(Sub(ms, s[0])[j].path, s[1..], false)
  {
    forall j | 0 <= j < |Sub(ms, s[0])|
      ensures !Clash(Sub(ms, s[0])[j].path, s[1..], false)
    {
      var i := SubOrigin(ms, s[0], j);
      assert !Clash(ms[i].path, s, top);
    }
  }

  // ---------------------------------------------------------------------------
  // Inserting an issue that clashes with none keeps the tree exact
  // ---------------------------------------------------------------------------

  /** The leaf array after one more message. */
  lemma PushedRepresents(t: Tree, ms: seq<Issue>, msg: string)
    requires if ms == [] then t == Arr([]) else Represents(t, ms)
    requires forall i :: 0 <= i < |ms| ==> !Clash(ms[i].path, [], false)
    ensures Represents(Pushed(t, msg), ms + [Issue([], msg)])
  {
    if ms != [] {
      assert ms[0].path == [];
    }
  }

  /** The child an insertion descends into is a fresh object or already an object. */
  lemma DescendedRepresents(t: Tree, ms: seq<Issue>, s: seq<PathSeg>)
    requires s != []
    requires if ms == [] then t == Null || t == EMPTY_OBJECT else Represents(t, ms)
    requires forall i :: 0 <= i < |ms| ==> !Clash(ms[i].path, s, false)
    ensures Represents(AsObject(t), ms)
  {
    if ms != [] {
      assert !Clash(ms[0].path, s, false);
    }
  }

  lemma ObjectWith(entries: map<string, Tree>, ms: seq<Issue>, x: Issue, child: Tree)
    requires Represents(Obj(entries), ms)
    requires x.path != [] && x.path[0].Field?
    requires Represents(child, Sub(ms, x.path[0]) + [Issue(x.path[1..], x.message)])
    ensures Represents(Obj(entries[x.path[0].name := child]), ms + [x])
  {
    var entries' := entries[x.path[0].name := child];
    forall k
      ensures k in entries' <==> Sub(ms + [x], Field(k)) != []
      ensures k in entries' ==> Represents(entries'[k], Sub(ms + [x], Field(k)))
    {
      SubSnoc(ms, x, Field(k));
    }
  }

  /** The slots of an array of sub-trees: null exactly where no issue goes. */
  ghost predicate Slots(items: seq<Tree>, ms: seq<Issue>) {
    && Below(ms, false)
    && (forall i :: 0 <= i < |ms| ==> ms[i].path[0].idx < |items|)
    && (forall i :: 0 <= i < |items| ==> (items[i] == Null <==> Sub(ms, Index(i)) == []))
    && (forall i :: 0 <= i < |items| ==> Represents(items[i], Sub(ms, Index(i))))
  }

  lemma PaddedSlots(items: seq<Tree>, ms: seq<Issue>, n: nat)
    requires Slots(items, ms)
    ensures Slots(Padded(items, n), ms)
  {
    var items' := Padded(items, n);
    forall k | |items| <= k < |items'|
      ensures Sub(ms, Index(k)) == []
    {
      if Sub(ms, Index(k)) != [] {
        var o := SubOrigin(ms, Index(k), 0);
      }
    }
  }

  lemma SlotsWith(items: seq<Tree>, ms: seq<Issue>, x: Issue, child: Tree)
    requires Slots(items, ms)
    requires x.path != [] && x.path[0].Index? && x.path[0].idx < |items|
    requires child != Null && Represents(child, Sub(ms, x.path[0]) + [Issue(x.path[1..], x.message)])
    ensures Slots(items[x.path[0].idx := child], ms + [x])
  {
    var items' := items[x.path[0].idx := child];
    forall k | 0 <= k < |items'|
      ensures items'[k] == Null <==> Sub(ms + [x], Index(k)) == []
      ensures Represents(items'[k], Sub(ms + [x], Index(k)))
    {
      SubSnoc(ms, x, Index(k));
    }
  }

  lemma StartSlots(t: Tree, ms: seq<Issue>, s: seq<PathSeg>)
    requires s != [] && s[0].Index?
    requires (t.Obj? || t.Arr?) && Represents(t, ms)
    requires forall i :: 0 <= i < |ms| ==> !Clash(ms[i].path, s, t.Arr?)
    ensures Slots(if t.Arr? then t.items else [], ms)
  {
    if ms != [] {
      assert !Clash(ms[0].path, s, t.Arr?);
    }
  }

  /** A position clashes with every field, so an object it goes into is still empty. */
  lemma NoneBelowObject(t: Tree, ms: seq<Issue>, s: seq<PathSeg>, top: bool)
    requires s != [] && s[0].Index?
    requires (t.Obj? || (top && t.Arr?)) && Represents(t, ms)
    requires forall i :: 0 <= i < |ms| ==> !Clash(ms[i].path, s, top)
    ensures t.Obj? ==> ms == []
  {
    if ms != [] {
      assert !Clash(ms[0].path, s, top);
    }
  }

  lemma NotAnArray(t: Tree, ms: seq<Issue>, s: seq<PathSeg>, top: bool)
    requires s != [] && s[0].Field?
    requires (t.Obj? || t.Arr?) && Represents(t, ms)
    requires forall i :: 0 <= i < |ms| ==> !Clash(ms[i].path, s, top)
    ensures t.Obj?
  {
    if ms != [] {
      assert !Clash(ms[0].path, s, top);
    }
  }

  /** The tree handed to the next level of the recursion, or the finished leaf array. */
  lemma {:induction false} ChildRepresents(child: Tree, ms: seq<Issue>, s: seq<PathSeg>, msg: string)
    requires IsCanonical(s)
    requires if ms == [] then child == Null || child == (if s == [] then Arr([]) else EMPTY_OBJECT)
             else Represents(child, ms)
    requires forall i :: 0 <= i < |ms| ==> !Clash(ms[i].path, s, false)
    ensures Represents(if s == [] then Pushed(if child.Null? then Arr([]) else child, msg)
                       else Inserted(AsObject(child), s, msg), ms + [Issue(s, msg)])
    decreases |s|, 2
  {
    if s == [] {
      PushedRepresents(if child.Null? then Arr([]) else child, ms, msg);
    } else {
      DescendedRepresents(child, ms, s);
      InsertedRepresents(AsObject(child), ms, s, msg, false);
    }
  }

  lemma {:induction false} IndexRepresents(t: Tree, ms: seq<Issue>, s: seq<PathSeg>, msg: string)
    requires s != [] && IsCanonical(s) && s[0].Index?
    requires (t.Obj? || t.Arr?) && Represents(t, ms)
    requires forall i :: 0 <= i < |ms| ==> !Clash(ms[i].path, s, t.Arr?)
    ensures Represents(Inserted(t, s, msg), ms + [Issue(s, msg)])
    decreases |s|, 0
  {
    SubNoClash(ms, s, t.Arr?);
    StartSlots(t, ms, s);
    var start := if t.Arr? then t.items else [];
    var items := Padded(start, s[0].idx + 1);
    PaddedSlots(start, ms, s[0].idx + 1);
    var elem := items[s[0].idx];
    ChildRepresents(elem, Sub(ms, s[0]), s[1..], msg);
    SlotsWith(items, ms, Issue(s, msg), if |s| == 1 then Pushed(if elem.Null? then Arr([]) else elem, msg)
                                        else Inserted(AsObject(elem), s[1..], msg));
  }

  lemma {:induction false} FieldRepresents(t: Tree, ms: seq<Issue>, s: seq<PathSeg>, msg: string, top: bool)
    requires s != [] && IsCanonical(s) && s[0].Field?
    requires t.Obj? && Represents(t, ms)
    requires forall i :: 0 <= i < |ms| ==> !Clash(ms[i].path, s, top)
    ensures Represents(Inserted(t, s, msg), ms + [Issue(s, msg)])
    decreases |s|, 0
  {
    SubNoClash(ms, s, top);
    var entry := EntryOr(t, s[0].name, if |s| == 1 then Arr([]) else EMPTY_OBJECT);
    ChildRepresents(entry, Sub(ms, s[0]), s[1..], msg);
    ObjectWith(t.entries, ms, Issue(s, msg), if |s| == 1 then Pushed(entry, msg)
                                             else Inserted(AsObject(entry), s[1..], msg));
  }

  lemma {:induction false} InsertedRepresents(t: Tree, ms: seq<Issue>, s: seq<PathSeg>, msg: string, top: bool)
    requires s != [] && IsCanonical(s)
    requires t.Obj? || (top && t.Arr?)
    requires Represents(t, ms)
    requires forall i :: 0 <= i < |ms| ==> !Clash(ms[i].path, s, top)
    ensures Represents(Inserted(t, s, msg), ms + [Issue(s, msg)])
    decreases |s|, 1
  {
    if s[0].Index? {
      NoneBelowObject(t, ms, s, top);
      IndexRepresents(t, ms, s, msg);
    } else {
      NotAnArray(t, ms, s, top);
      FieldRepresents(t, ms, s, msg, top);
    }
  }

  // ---------------------------------------------------------------------------
  // Reading back what a represented tree holds
  // ---------------------------------------------------------------------------

  /** The messages whose remaining path is exactly p. */
  function Exact(ms: seq<Issue>, p: seq<PathSeg>): seq<string> {
    if ms == [] then []
    else
      var before := Exact(ms[..|ms| - 1], p);
      if ms[|ms| - 1].path == p then before + [ms[|ms| - 1].message] else before
  }

  lemma {:induction false} ExactSub(ms: seq<Issue>, p: seq<PathSeg>)
    requires p != []
    ensures Exact(ms, p) == Exact(Sub(ms, p[0]), p[1..])
  {
    if ms != [] {
      var init, last := ms[..|ms| - 1], ms[|ms| - 1];
      ExactSub(init, p);
      if last.path != [] && last.path[0] == p[0] {
        var rest := Sub(init, p[0]);
        assert Sub(ms, p[0]) == rest + [Issue(last.path[1..], last.message)];
        assert (rest + [Issue(last.path[1..], last.message)])[..|rest|] == rest;
        assert last.path == [p[0]] + last.path[1..] && p == [p[0]] + p[1..];
      }
    }
  }

  lemma {:induction false} ExactLeaves(items: seq<Tree>, ms: seq<Issue>)
    requires Holds(items, ms)
    ensures Leaves(Exact(ms, [])) == items
  {
    if ms != [] {
      ExactLeaves(items[..|ms| - 1], ms[..|ms| - 1]);
    }
  }

  lemma {:induction false} NotExact(ms: seq<Issue>, p: seq<PathSeg>)
    requires forall i :: 0 <= i < |ms| ==> ms[i].path != p
    ensures Exact(ms, p) == []
  {
    if ms != [] {
      NotExact(ms[..|ms| - 1], p);
    }
  }

  /** Every path of a represented tree reads exactly its own messages, and no others. */
  lemma {:induction false} LookupExact(t: Tree, ms: seq<Issue>, p: seq<PathSeg>)
    requires Represents(t, ms) && IsCanonical(p)
    ensures Exact(ms, p) != [] ==> Lookup(t, p) == Some(Arr(Leaves(Exact(ms, p))))
    ensures Exact(ms, p) == [] ==> forall xs :: xs != [] ==> Lookup(t, p) != Some(Arr(Leaves(xs)))
    decreases |p|
  {
    if p == [] {
      if t.Arr? && Holds(t.items, ms) {
        ExactLeaves(t.items, ms);
      } else {
        NotExact(ms, p);
        if t.Arr? && t.items != [] {
          assert Represents(t.items[0], Sub(ms, Index(0)));
          assert !t.items[0].Leaf?;
          assert forall xs :: xs != [] ==> Leaves(xs)[0].Leaf?;
        }
      }
    } else {
      ExactSub(ms, p);
      var sub := Sub(ms, p[0]);
      if p[0].Index? && t.Arr? && p[0].idx < |t.items| {
        if Holds(t.items, ms) {
          NotExact(ms, p);
          assert t.items[p[0].idx].Leaf?;
        } else {
          LookupExact(t.items[p[0].idx], sub, p[1..]);
        }
      } else if p[0].Field? && t.Obj? && p[0].name in t.entries {
        LookupExact(t.entries[p[0].name], sub, p[1..]);
      } else if sub != [] {
        var i := SubOrigin(ms, p[0], 0);
      }
    }
  }

  // ---------------------------------------------------------------------------
  // From issues to canonical issues
  // ---------------------------------------------------------------------------

  /** Insertion depends on the first segment by text or position, and on the rest through the child only. */
  lemma InsertedBySteps(t: Tree, p: seq<PathSeg>, q: seq<PathSeg>, msg: string)
    requires |p| == |q| > 0
    requires if p[0].Index? then q[0] == p[0] else !q[0].Index? && Text(q[0]) == Text(p[0])
    requires |p| > 1 ==> forall c: Tree :: Inserted(c, p[1..], msg) == Inserted(c, q[1..], msg)
    ensures Inserted(t, p, msg) == Inserted(t, q, msg)
  {
  }

  lemma {:induction false} InsertedCanon(path: seq<PathSeg>, msg: string)
    requires path != []
    ensures forall t: Tree :: Inserted(t, path, msg) == Inserted(t, Canon(path), msg)
    decreases |path|
  {
    if |path| > 1 {
      assert Canon(path[1..]) == Canon(path)[1..];
      InsertedCanon(path[1..], msg);
    }
    forall t: Tree
      ensures Inserted(t, path, msg) == Inserted(t, Canon(path), msg)
    {
      InsertedBySteps(t, path, Canon(path), msg);
    }
  }

  /** The builder treats an issue at the root as one at `non_field_errors`, and a key as a field. */
  lemma AddIssueCanon(t: Tree, issue: Issue)
    ensures AddIssue(t, issue) == Inserted(t, Canon(issue.path), issue.message)
  {
    if issue.path != [] {
      InsertedCanon(issue.path, issue.message);
    }
  }

  lemma {:induction false} MessagesExact(issues: seq<Issue>, p: seq<PathSeg>)
    ensures MessagesAt(issues, p) == Exact(CanonIssues(issues), p)
  {
    if issues != [] {
      var n := |issues| - 1;
      MessagesExact(issues[..n], p);
      assert CanonIssues(issues)[..n] == CanonIssues(issues[..n]);
    }
  }

  lemma NestedSnoc(issues: seq<Issue>, x: Issue)
    ensures Nested(issues + [x]) == Inserted(Nested(issues), Canon(x.path), x.message)
    ensures CanonIssues(issues + [x]) == CanonIssues(issues) + [Issue(Canon(x.path), x.message)]
  {
    assert (issues + [x])[..|issues|] == issues;
    AddIssueCanon(Nested(issues), x);
  }

  /** The shape of the top of the tree: an object until the first position, an array once there is one. */
  lemma InsertedShape(t: Tree, path: seq<PathSeg>, msg: string)
    requires path != [] && (t.Obj? || t.Arr?)
    ensures Inserted(t, path, msg).Obj? || Inserted(t, path, msg).Arr?
  {
  }

  ghost predicate NoClash(issues: seq<Issue>, last: Issue) {
    forall i :: 0 <= i < |issues| ==> !Clash(Canon(issues[i].path), Canon(last.path), true)
  }

  lemma SplitLast(issues: seq<Issue>) returns (init: seq<Issue>, last: Issue)
    requires issues != []
    ensures issues == init + [last]
  {
    init, last := issues[..|issues| - 1], issues[|issues| - 1];
  }

  lemma ClashFreeSnoc(init: seq<Issue>, last: Issue)
    requires ClashFree(init + [last])
    ensures ClashFree(init) && NoClash(init, last)
  {
    var issues := init + [last];
    assert forall i :: 0 <= i < |init| ==> issues[i] == init[i];
    assert issues[|init|] == last;
  }

  lemma SnocRepresents(init: seq<Issue>, last: Issue)
    requires RepresentedTop(init) && NoClash(init, last)
    ensures RepresentedTop(init + [last])
  {
    NestedSnoc(init, last);
    InsertedShape(Nested(init), Canon(last.path), last.message);
    InsertedRepresents(Nested(init), CanonIssues(init), Canon(last.path), last.message, true);
  }

  lemma EmptyRepresents()
    ensures Represents(Nested([]), CanonIssues([])) && Nested([]).Obj?
  {
    assert CanonIssues([]) == [];
  }

  ghost predicate RepresentedTop(issues: seq<Issue>) {
    Represents(Nested(issues), CanonIssues(issues)) && (Nested(issues).Obj? || Nested(issues).Arr?)
  }

  lemma {:induction false} ClashFreeRepresents(issues: seq<Issue>)
    requires ClashFree(issues)
    ensures RepresentedTop(issues)
    decreases |issues|
  {
    if issues == [] {
      EmptyRepresents();
    } else {
      var init, last := SplitLast(issues);
      ClashFreeSnoc(init, last);
      ClashFreeRepresents(init);
      SnocRepresents(init, last);
    }
  }

  // ---------------------------------------------------------------------------
  // A clash loses messages for good
  // ---------------------------------------------------------------------------

  /** How many messages can be read at a path. */
  function Readable(t: Tree, p: seq<PathSeg>): nat {
    var found := Lookup(t, p);
    if found.Some? && found.value.Arr? && forall i :: 0 <= i < |found.value.items| ==> found.value.items[i].Leaf?
    then |found.value.items| else 0
  }

  /** The sub-tree one segment below. */
  function Child(t: Tree, seg: PathSeg): Option<Tree> {
    if seg.Index? then if t.Arr? && seg.idx < |t.items| then Some(t.items[seg.idx]) else None
    else if t.Obj? && Text(seg) in t.entries then Some(t.entries[Text(seg)]) else None
  }

  lemma ReadableChild(t: Tree, p: seq<PathSeg>)
    requires p != []
    ensures Readable(t, p) == if Child(t, p[0]).Some? then Readable(Child(t, p[0]).value, p[1..]) else 0
  {
  }

  lemma PushedGrowth(t: Tree, msg: string, p: seq<PathSeg>)
    ensures Readable(Pushed(t, msg), p) <= Readable(t, p) + if p == [] then 1 else 0
  {
    if t.Arr? {
      var t' := Pushed(t, msg);
      if p == [] {
        assert forall i :: 0 <= i < |t.items| ==> t.items[i] == t'.items[i];
      } else if p[0].Index? && p[0].idx == |t.items| {
        assert Lookup(t', p) == Lookup(Leaf(msg), p[1..]);
      }
    }
  }

  /** An insertion turns no array into a readable one at the node it starts from. */
  lemma ReadableHere(t: Tree, s: seq<PathSeg>, msg: string)
    requires s != []
    ensures Readable(Inserted(t, s, msg), []) <= Readable(t, [])
  {
    var t' := Inserted(t, s, msg);
    if s[0].Index? && t'.items[s[0].idx].Leaf? {
      assert t' == t by {
        assert t.Arr? && s[0].idx < |t.items|;
        assert t'.items == t.items;
      }
    }
  }

  /** What an insertion does to the children of the node it starts from. */
  function NewChild(t: Tree, s: seq<PathSeg>, msg: string): Tree
    requires s != []
  {
    var child := Child(t, s[0]);
    if |s| == 1 then
      Pushed(if child.None? || (s[0].Index? && child.value.Null?) then Arr([]) else child.value, msg)
    else Inserted(if child.None? then EMPTY_OBJECT else AsObject(child.value), s[1..], msg)
  }

  lemma InsertedChild(t: Tree, s: seq<PathSeg>, msg: string, seg: PathSeg)
    requires s != [] && IsCanonical(s) && !seg.Key?
    requires s[0].Index? || t.Obj?
    ensures seg == s[0] ==> Child(Inserted(t, s, msg), seg) == Some(NewChild(t, s, msg))
    ensures seg != s[0] ==>
              || Child(Inserted(t, s, msg), seg) == Child(t, seg)
              || Child(Inserted(t, s, msg), seg) in {None, Some(Null)}
  {
  }

  /** One insertion makes at most its own message readable, and only at its own path. */
  lemma {:induction false} ReadableGrowth(t: Tree, s: seq<PathSeg>, msg: string, p: seq<PathSeg>)
    requires s != [] && IsCanonical(s) && IsCanonical(p)
    ensures Readable(Inserted(t, s, msg), p) <= Readable(t, p) + if s == p then 1 else 0
    decreases |s|
  {
    if p == [] {
      ReadableHere(t, s, msg);
    } else if s[0].Index? || t.Obj? {
      InsertedChild(t, s, msg, p[0]);
      ReadableChild(Inserted(t, s, msg), p);
      ReadableChild(t, p);
      if s[0] == p[0] {
        assert s[1..] == p[1..] ==> s == p by {
          assert s == [s[0]] + s[1..] && p == [p[0]] + p[1..];
        }
        NewChildGrowth(t, s, msg, p[1..]);
      }
    }
  }

  lemma {:induction false} NewChildGrowth(t: Tree, s: seq<PathSeg>, msg: string, p: seq<PathSeg>)
    requires s != [] && IsCanonical(s) && IsCanonical(p)
    ensures Readable(NewChild(t, s, msg), p)
         <= (if Child(t, s[0]).Some? then Readable(Child(t, s[0]).value, p) else 0) + if s[1..] == p then 1 else 0
    decreases |s|, 0
  {
    var child := Child(t, s[0]);
    if |s| == 1 {
      PushedGrowth(if child.None? || (s[0].Index? && child.value.Null?) then Arr([]) else child.value, msg, p);
    } else {
      ReadableGrowth(if child.None? then EMPTY_OBJECT else AsObject(child.value), s[1..], msg, p);
    }
  }

  /** The one clash a finished tree does not show: both paths need an array at the same place below the top. */
  predicate SharedSlots(p: seq<PathSeg>, q: seq<PathSeg>, top: bool)
    decreases |p|
  {
    && p != [] && q != []
    && if !top && p[0].Index? && q[0].Index? then true else p[0] == q[0] && SharedSlots(p[1..], q[1..], false)
  }

  /** Every other clash is a contradiction about the shape of the tree. */
  lemma {:induction false} ReadableTogether(t: Tree, p: seq<PathSeg>, q: seq<PathSeg>, top: bool)
    requires IsCanonical(p) && IsCanonical(q)
    requires Clash(p, q, top)
    requires Readable(t, p) > 0 && Readable(t, q) > 0
    ensures SharedSlots(p, q, top)
    decreases |p|
  {
    if p != [] && q != [] && p[0] == q[0] && (top || !p[0].Index?) {
      ReadableChild(t, p);
      ReadableChild(t, q);
      ReadableTogether(Child(t, p[0]).value, p[1..], q[1..], false);
    } else if p == [] {
      ReadableChild(t, q);
    } else if q == [] {
      ReadableChild(t, p);
    }
  }

  /** Below the top an insertion at a position starts from a new array. */
  lemma ResetLoses(t: Tree, q: seq<PathSeg>, msg: string, p: seq<PathSeg>)
    requires IsCanonical(p) && IsCanonical(q) && p != [] && q != []
    requires t.Obj? && p[0].Index? && q[0].Index?
    ensures Readable(Inserted(t, q, msg), p) <= if p == q then 1 else 0
  {
    ReadableChild(Inserted(t, q, msg), p);
    InsertedChild(t, q, msg, p[0]);
    if p[0] == q[0] {
      NewChildGrowth(t, q, msg, p[1..]);
      assert p == [p[0]] + p[1..] && q == [q[0]] + q[1..];
    }
  }

  /** Reusing an array below the top throws away what it held. */
  lemma {:induction false} SharedSlotsLose(t: Tree, q: seq<PathSeg>, msg: string, p: seq<PathSeg>, top: bool)
    requires IsCanonical(p) && IsCanonical(q)
    requires SharedSlots(p, q, top)
    requires top || t.Obj?
    ensures Readable(Inserted(t, q, msg), p) <= if p == q then 1 else 0
    decreases |q|
  {
    if !top && p[0].Index? && q[0].Index? {
      ResetLoses(t, q, msg, p);
    } else {
      assert p == [p[0]] + p[1..] && q == [q[0]] + q[1..];
      ReadableChild(Inserted(t, q, msg), p);
      if q[0].Index? || t.Obj? {
        InsertedChild(t, q, msg, p[0]);
        var child := Child(t, q[0]);
        SharedSlotsLose(if child.None? then EMPTY_OBJECT else AsObject(child.value), q[1..], msg, p[1..], false);
      }
    }
  }

  lemma MessagesSnoc(issues: seq<Issue>, x: Issue, p: seq<PathSeg>)
    ensures MessagesAt(issues + [x], p) == MessagesAt(issues, p) + if Canon(x.path) == p then [x.message] else []
  {
    assert (issues + [x])[..|issues|] == issues;
  }

  lemma {:induction false} MessagesNonEmpty(issues: seq<Issue>, i: nat)
    requires i < |issues|
    ensures MessagesAt(issues, Canon(issues[i].path)) != []
  {
    if i < |issues| - 1 {
      MessagesNonEmpty(issues[..|issues| - 1], i);
    }
  }

  lemma LossNow(init: seq<Issue>, last: Issue, p: seq<PathSeg>)
    requires SharedSlots(p, Canon(last.path), true) && IsCanonical(p) && MessagesAt(init, p) != []
    ensures Readable(Nested(init + [last]), p) < |MessagesAt(init + [last], p)|
  {
    MessagesSnoc(init, last, p);
    NestedSnoc(init, last);
    SharedSlotsLose(Nested(init), Canon(last.path), last.message, p, true);
  }

  lemma LossKept(init: seq<Issue>, last: Issue, p: seq<PathSeg>)
    requires Readable(Nested(init), p) < |MessagesAt(init, p)| && IsCanonical(p)
    ensures Readable(Nested(init + [last]), p) < |MessagesAt(init + [last], p)|
  {
    MessagesSnoc(init, last, p);
    NestedSnoc(init, last);
    ReadableGrowth(Nested(init), Canon(last.path), last.message, p);
  }

  /** Once a message is lost, later issues cannot bring it back. */
  lemma {:induction false} LossPersists(issues: seq<Issue>, i: nat, j: nat, n: nat)
    requires i < j < n <= |issues|
    requires SharedSlots(Canon(issues[i].path), Canon(issues[j].path), true)
    ensures var p := Canon(issues[i].path);
            Readable(Nested(issues[..n]), p) < |MessagesAt(issues[..n], p)|
  {
    var p := Canon(issues[i].path);
    assert issues[..n] == issues[..n - 1] + [issues[n - 1]];
    if n - 1 == j {
      MessagesNonEmpty(issues[..n - 1], i);
      LossNow(issues[..n - 1], issues[n - 1], p);
    } else {
      LossPersists(issues, i, j, n - 1);
      LossKept(issues[..n - 1], issues[n - 1], p);
    }
  }

  lemma ReadAsReported(issues: seq<Issue>, i: nat)
    requires Faithful(issues) && i < |issues|
    ensures var p := Canon(issues[i].path);
            Readable(Nested(issues), p) == |MessagesAt(issues, p)| > 0
  {
    MessagesNonEmpty(issues, i);
  }

  // ---------------------------------------------------------------------------
  // Main results
  // ---------------------------------------------------------------------------

  /** Without a clash no message is lost, moved, repeated or invented: every path, reported or not, reads
      exactly its own messages. */
  lemma EveryPathExact(issues: seq<Issue>, path: seq<PathSeg>)
    requires ClashFree(issues) && IsCanonical(path)
    ensures MessagesAt(issues, path) != [] ==>
              Lookup(Nested(issues), path) == Some(Arr(Leaves(MessagesAt(issues, path))))
    ensures MessagesAt(issues, path) == [] ==>
              forall msgs :: msgs != [] ==> Lookup(Nested(issues), path) != Some(Arr(Leaves(msgs)))
  {
    ClashFreeRepresents(issues);
    MessagesExact(issues, path);
    LookupExact(Nested(issues), CanonIssues(issues), path);
  }

  lemma FaithfulHasNoClash(issues: seq<Issue>, i: nat, j: nat)
    requires Faithful(issues) && i < j < |issues|
    ensures !Clash(Canon(issues[i].path), Canon(issues[j].path), true)
  {
    var p, q := Canon(issues[i].path), Canon(issues[j].path);
    if Clash(p, q, true) {
      ReadAsReported(issues, i);
      ReadAsReported(issues, j);
      ReadableTogether(Nested(issues), p, q, true);
      assert issues[..|issues|] == issues;
      LossPersists(issues, i, j, |issues|);
    }
  }

  /** The nested tree is faithful exactly for the reports without a clash. */
  lemma FaithfulIffClashFree(issues: seq<Issue>)
    ensures Faithful(issues) <==> ClashFree(issues)
  {
    if ClashFree(issues) {
      forall i | 0 <= i < |issues|
        ensures var path := Canon(issues[i].path);
                Lookup(Nested(issues), path) == Some(Arr(Leaves(MessagesAt(issues, path))))
      {
        MessagesNonEmpty(issues, i);
        EveryPathExact(issues, Canon(issues[i].path));
      }
    }
    if Faithful(issues) {
      forall i, j | 0 <= i < j < |issues|
        ensures !Clash(Canon(issues[i].path), Canon(issues[j].path), true)
      {
        FaithfulHasNoClash(issues, i, j);
      }
    }
  }

  /** In a report about list elements, an array slot is null exactly when no issue is about that element. */
  lemma UnmentionedSlotsAreNull(issues: seq<Issue>, k: nat)
    requires ClashFree(issues) && Nested(issues).Arr? && k < |Nested(issues).items|
    ensures Nested(issues).items[k] == Null <==>
            forall i :: 0 <= i < |issues| ==> Canon(issues[i].path)[0] != Index(k)
  {
    ClashFreeRepresents(issues);
    var ms := CanonIssues(issues);
    assert ms[0].path == Canon(issues[0].path);
    assert !Holds(Nested(issues).items, ms);
    if Sub(ms, Index(k)) != [] {
      var o := SubOrigin(ms, Index(k), 0);
      assert Canon(issues[o].path)[0] == Index(k);
    } else {
      forall i | 0 <= i < |issues|
        ensures Canon(issues[i].path)[0] != Index(k)
      {
        if Canon(issues[i].path)[0] == Index(k) {
          SubNonEmpty(ms, i);
        }
      }
    }
  }

  /** Two faulty elements of a list held in a field, as the derived validators report them, are not both kept. */
  lemma ListFieldLosesErrors(first: string, second: string)
    ensures !Faithful([Issue([Field("items"), Index(0), Field("name")], first),
                       Issue([Field("items"), Index(1), Field("name")], second)])
  {
    var a, b := [Field("items"), Index(0), Field("name")], [Field("items"), Index(1), Field("name")];
    var issues := [Issue(a, first), Issue(b, second)];
    assert Canon(a) == a && Canon(b) == b;
    assert Clash(a[1..], b[1..], false);
    assert Clash(Canon(issues[0].path), Canon(issues[1].path), true);
    FaithfulIffClashFree(issues);
  }

  lemma PrefixedSnoc(issues: seq<Issue>, x: Issue, seg: PathSeg)
    ensures Nested(issues + [x]) == AddIssue(Nested(issues), x)
    ensures PrefixedIssues(issues + [x], seg) == PrefixedIssues(issues, seg) + [Issue([seg] + x.path, x.message)]
    ensures Nested(PrefixedIssues(issues + [x], seg))
         == Inserted(Nested(PrefixedIssues(issues, seg)), [seg] + x.path, x.message)
  {
    assert (issues + [x])[..|issues|] == issues;
    var before, added := PrefixedIssues(issues, seg), Issue([seg] + x.path, x.message);
    assert PrefixedIssues(issues + [x], seg) == before + [added];
    assert (before + [added])[..|before|] == before;
  }

  /** Inserting below a name or a position is inserting into what is there. */
  lemma InsertedUnder(t: Tree, seg: PathSeg, path: seq<PathSeg>, msg: string)
    requires path != []
    ensures !seg.Index? && t.Obj? ==>
              Inserted(t, [seg] + path, msg)
              == Obj(t.entries[Text(seg) := Inserted(AsObject(EntryOr(t, Text(seg), EMPTY_OBJECT)), path, msg)])
    ensures seg.Index? ==>
              var items := Padded(if t.Arr? then t.items else [], seg.idx + 1);
              Inserted(t, [seg] + path, msg) == Arr(items[seg.idx := Inserted(AsObject(items[seg.idx]), path, msg)])
  {
    assert ([seg] + path)[1..] == path;
  }

  lemma NamedSnoc(init: seq<Issue>, last: Issue)
    requires Named(init + [last])
    ensures Named(init) && last.path != [] && !last.path[0].Index?
  {
    var issues := init + [last];
    assert forall i :: 0 <= i < |init| ==> issues[i] == init[i];
    assert issues[|init|] == last;
  }

  predicate Named(issues: seq<Issue>) {
    forall i :: 0 <= i < |issues| ==> issues[i].path != [] && !issues[i].path[0].Index?
  }

  ghost predicate WrappedByName(issues: seq<Issue>, seg: PathSeg)
    requires !seg.Index?
  {
    Nested(issues).Obj? && Nested(PrefixedIssues(issues, seg)) == Obj(map[Text(seg) := Nested(issues)])
  }

  lemma NameStep(init: seq<Issue>, last: Issue, seg: PathSeg)
    requires !seg.Index? && last.path != [] && !last.path[0].Index?
    requires init == [] || WrappedByName(init, seg)
    ensures WrappedByName(init + [last], seg)
  {
    PrefixedSnoc(init, last, seg);
    var before := Nested(PrefixedIssues(init, seg));
    InsertedUnder(before, seg, last.path, last.message);
    assert before.Obj? && AsObject(EntryOr(before, Text(seg), EMPTY_OBJECT)) == Nested(init);
  }

  /** Prefixing a report with a field (or key) wraps its tree in a one-entry object, whatever its clashes. */
  lemma {:induction false} NestedUnderName(issues: seq<Issue>, seg: PathSeg)
    requires issues != [] && !seg.Index? && Named(issues)
    ensures Nested(issues).Obj?
    ensures Nested(PrefixedIssues(issues, seg)) == Obj(map[Text(seg) := Nested(issues)])
    decreases |issues|
  {
    var init, last := SplitLast(issues);
    NamedSnoc(init, last);
    if init != [] {
      NestedUnderName(init, seg);
    }
    NameStep(init, last, seg);
  }

  ghost predicate WrappedByIndex(issues: seq<Issue>, k: nat) {
    Nested(issues).Obj? && Nested(PrefixedIssues(issues, Index(k))) == Arr(Nulls(k) + [Nested(issues)])
  }

  lemma IndexStep(init: seq<Issue>, last: Issue, k: nat)
    requires last.path != [] && !last.path[0].Index?
    requires init == [] || WrappedByIndex(init, k)
    ensures WrappedByIndex(init + [last], k)
  {
    PrefixedSnoc(init, last, Index(k));
    var before := Nested(PrefixedIssues(init, Index(k)));
    InsertedUnder(before, Index(k), last.path, last.message);
    var items := Padded(if before.Arr? then before.items else [], k + 1);
    assert AsObject(items[k]) == Nested(init);
    assert items[k := Nested(init + [last])] == Nulls(k) + [Nested(init + [last])];
  }

  /** Prefixing with a position gives that many nulls and then the tree. */
  lemma {:induction false} NestedUnderIndex(issues: seq<Issue>, k: nat)
    requires issues != [] && Named(issues)
    ensures Nested(issues).Obj?
    ensures Nested(PrefixedIssues(issues, Index(k))) == Arr(Nulls(k) + [Nested(issues)])
    decreases |issues|
  {
    var init, last := SplitLast(issues);
    NamedSnoc(init, last);
    if init != [] {
      NestedUnderIndex(init, k);
    }
    IndexStep(init, last, k);
  }

  function LeafMap(m: map<string, seq<string>>): map<string, Tree> {
    map k | k in m :: Arr(Leaves(m[k]))
  }

  lemma LeafMapAppended(m: map<string, seq<string>>, key: string, msg: string)
    ensures LeafMap(Appended(m, key, msg))
         == LeafMap(m)[key := Pushed(EntryOr(Obj(LeafMap(m)), key, Arr([])), msg)]
  {
    var before := if key in m then m[key] else [];
    assert EntryOr(Obj(LeafMap(m)), key, Arr([])) == Arr(Leaves(before));
    assert Leaves(before + [msg]) == Leaves(before) + [Leaf(msg)];
  }

  lemma FlatStep(m: map<string, seq<string>>, x: Issue)
    requires x.path == [] || (|x.path| == 1 && x.path[0].Field?)
    ensures AddIssue(Obj(LeafMap(m)), x) == Obj(LeafMap(FlatAdded(m, x)))
  {
    LeafMapAppended(m, if x.path == [] then NON_FIELD else x.path[0].name, x.message);
  }

  /** On reports of root and single-field issues the nested tree is the flat field map. */
  lemma {:induction false} NestedIsFlat(issues: seq<Issue>)
    requires forall i :: 0 <= i < |issues| ==>
               issues[i].path == [] || (|issues[i].path| == 1 && issues[i].path[0].Field?)
    ensures Nested(issues) == Obj(LeafMap(Flat(issues)))
  {
    if issues == [] {
      assert LeafMap(Flat(issues)) == map[];
    } else {
      var n := |issues| - 1;
      NestedIsFlat(issues[..n]);
      FlatStep(Flat(issues[..n]), issues[n]);
    }
  }

  // ---------------------------------------------------------------------------
  // The flat map
  // ---------------------------------------------------------------------------

  /** The messages a flat view shows under a key: those of the issues at that single field, and under
      "non_field_errors" those at the root, in report order. */
  function Filed(issues: seq<Issue>, key: string): seq<string> {
    if issues == [] then []
    else
      var before, last := Filed(issues[..|issues| - 1], key), issues[|issues| - 1];
      if last.path == [Field(key)] || (last.path == [] && key == "non_field_errors") then before + [last.message]
      else before
  }

  /** Every key of the flat map has exactly its messages, and a key without messages is not there, whatever the report;
      longer paths, positions and map keys are in no entry. */
  lemma {:induction false} FlatIsFiled(issues: seq<Issue>, key: string)
    ensures key in Flat(issues) <==> Filed(issues, key) != []
    ensures key in Flat(issues) ==> Flat(issues)[key] == Filed(issues, key)
  {
    if issues != [] {
      FlatIsFiled(issues[..|issues| - 1], key);
    }
  }

  // ---------------------------------------------------------------------------
  // What a clash makes of the tree
  // ---------------------------------------------------------------------------

  /** The part of a tree that an insertion with more to go descends into. */
  function Slot(cur: Tree, seg: PathSeg): Tree {
    if seg.Index? then Padded(if cur.Arr? then cur.items else [], seg.idx + 1)[seg.idx]
    else if cur.Obj? then EntryOr(cur, Text(seg), EMPTY_OBJECT) else Null
  }

  /** The tree with that part replaced. */
  function Filled(cur: Tree, seg: PathSeg, part: Tree): Tree {
    if seg.Index? then Arr(Padded(if cur.Arr? then cur.items else [], seg.idx + 1)[seg.idx := part])
    else if cur.Obj? then Obj(cur.entries[Text(seg) := part]) else cur
  }

  lemma InsertedBelow(cur: Tree, seg: PathSeg, rest: seq<PathSeg>, msg: string)
    requires rest != []
    ensures Inserted(cur, [seg] + rest, msg) == Filled(cur, seg, Inserted(AsObject(Slot(cur, seg)), rest, msg))
  {
    assert ([seg] + rest)[1..] == rest;
  }

  lemma FilledTwice(cur: Tree, seg: PathSeg, a: Tree, b: Tree)
    ensures Filled(Filled(cur, seg, a), seg, b) == Filled(cur, seg, b)
    ensures seg.Index? || cur.Obj? ==> Slot(Filled(cur, seg, a), seg) == a
  {
  }

  /** A path that goes on with a position starts over below a name, whatever was there. */
  lemma StartsOver(x: Tree, rest: seq<PathSeg>, first: string, more: seq<PathSeg>, second: string)
    requires x.Obj? && rest != [] && more != [] && more[0] == rest[0]
    requires Inserted(Inserted(x, rest, first), more, second) == Inserted(x, more, second)
    ensures Inserted(AsObject(Inserted(x, rest, first)), more, second) == Inserted(x, more, second)
  {
  }

  lemma DeeperStep(cur: Tree, seg: PathSeg, rest: seq<PathSeg>, more: seq<PathSeg>, first: string, second: string)
    requires rest != [] && more != [] && more[0] == rest[0]
    requires Overrides(AsObject(Slot(cur, seg)), rest, first, more, second)
    ensures Overrides(cur, [seg] + rest, first, [seg] + more, second)
  {
    var x := AsObject(Slot(cur, seg));
    var once := Inserted(x, rest, first);
    InsertedBelow(cur, seg, rest, first);
    InsertedBelow(cur, seg, more, second);
    InsertedBelow(Filled(cur, seg, once), seg, more, second);
    StartsOver(x, rest, first, more, second);
    FilledTwice(cur, seg, once, Inserted(x, more, second));
  }

  lemma DeeperOne(cur: Tree, seg: PathSeg, q: seq<PathSeg>, first: string, second: string)
    requires q != []
    ensures Overrides(cur, [seg], first, [seg] + q, second)
  {
    var once := Inserted(cur, [seg], first);
    InsertedBelow(cur, seg, q, second);
    InsertedBelow(once, seg, q, second);
    assert once == Filled(cur, seg, if seg.Index? || cur.Obj? then Slot(once, seg) else Null);
    assert AsObject(Slot(once, seg)) == AsObject(Slot(cur, seg));
    FilledTwice(cur, seg, Slot(once, seg), Inserted(AsObject(Slot(cur, seg)), q, second));
  }

  lemma ShallowerOne(cur: Tree, seg: PathSeg, q: seq<PathSeg>, first: string, second: string)
    requires q != [] && !q[0].Index?
    ensures Swallowed(cur, [seg] + q, first, [seg], second)
  {
    var part := Inserted(AsObject(Slot(cur, seg)), q, first);
    InsertedBelow(cur, seg, q, first);
    assert part.Obj? && Pushed(part, second) == part;
    FilledTwice(cur, seg, part, part);
  }

  lemma ShallowerStep(cur: Tree, seg: PathSeg, rest: seq<PathSeg>, more: seq<PathSeg>, first: string, second: string)
    requires rest != [] && more != [] && !more[0].Index?
    requires Swallowed(AsObject(Slot(cur, seg)), more, first, rest, second)
    ensures Swallowed(cur, [seg] + more, first, [seg] + rest, second)
  {
    var part := Inserted(AsObject(Slot(cur, seg)), more, first);
    InsertedBelow(cur, seg, more, first);
    InsertedBelow(Filled(cur, seg, part), seg, rest, second);
    assert part.Obj?;
    FilledTwice(cur, seg, part, part);
  }

  lemma SplitHead(p: seq<PathSeg>, q: seq<PathSeg>)
    requires p != []
    ensures p == [p[0]] + p[1..] && p + q == [p[0]] + (p[1..] + q)
  {
  }

  /** The second insertion has the same outcome with or without the first. */
  ghost predicate Overrides(t: Tree, p: seq<PathSeg>, first: string, q: seq<PathSeg>, second: string) {
    Inserted(Inserted(t, p, first), q, second) == Inserted(t, q, second)
  }

  /** The second insertion changes nothing after the first. */
  ghost predicate Swallowed(t: Tree, p: seq<PathSeg>, first: string, q: seq<PathSeg>, second: string) {
    Inserted(Inserted(t, p, first), q, second) == Inserted(t, p, first)
  }

  /** A message below a path wipes out the message at the path before it: with or without that one, and whatever the
      tree, the outcome is the same. */
  lemma {:induction false} DeeperReplaces(cur: Tree, p: seq<PathSeg>, q: seq<PathSeg>, first: string, second: string)
    requires p != [] && q != []
    ensures Overrides(cur, p, first, p + q, second)
    decreases |p|
  {
    if |p| == 1 {
      DeeperOne(cur, p[0], q, first, second);
      SplitHead(p, q);
      assert p[1..] == [] && p == [p[0]] && p[1..] + q == q;
    } else {
      var rest := p[1..];
      DeeperReplaces(AsObject(Slot(cur, p[0])), rest, q, first, second);
      DeeperStep(cur, p[0], rest, rest + q, first, second);
      SplitHead(p, q);
    }
  }

  /** A message above a path of names is swallowed after the one below it. */
  lemma {:induction false} ShallowerIsSwallowed(cur: Tree, p: seq<PathSeg>, q: seq<PathSeg>, first: string,
                                                second: string)
    requires p != [] && q != [] && !q[0].Index? && forall i :: 0 < i < |p| ==> !p[i].Index?
    ensures Swallowed(cur, p + q, first, p, second)
    decreases |p|
  {
    if |p| == 1 {
      ShallowerOne(cur, p[0], q, first, second);
      SplitHead(p, q);
      assert p[1..] == [] && p == [p[0]] && p[1..] + q == q;
    } else {
      var rest := p[1..];
      ShallowerIsSwallowed(AsObject(Slot(cur, p[0])), rest, q, first, second);
      ShallowerStep(cur, p[0], rest, rest + q, first, second);
      SplitHead(p, q);
    }
  }

  lemma NestedThen(issues: seq<Issue>, x: Issue, y: Issue)
    ensures Nested(issues + [x]) == AddIssue(Nested(issues), x)
    ensures Nested(issues + [x, y]) == AddIssue(AddIssue(Nested(issues), x), y)
  {
    assert (issues + [x])[..|issues|] == issues;
    assert (issues + [x, y])[..|issues| + 1] == issues + [x];
  }

  /** So the order of two clashing issues decides nothing but which of them stays: it is the deeper one. */
  lemma DeeperStays(issues: seq<Issue>, p: seq<PathSeg>, q: seq<PathSeg>, above: string, below: string)
    requires p != [] && q != [] && !q[0].Index? && forall i :: 0 < i < |p| ==> !p[i].Index?
    ensures Nested(issues + [Issue(p, above), Issue(p + q, below)]) == Nested(issues + [Issue(p + q, below)])
    ensures Nested(issues + [Issue(p + q, below), Issue(p, above)]) == Nested(issues + [Issue(p + q, below)])
  {
    NestedThen(issues, Issue(p, above), Issue(p + q, below));
    NestedThen(issues, Issue(p + q, below), Issue(p, above));
    DeeperReplaces(Nested(issues), p, q, above, below);
    ShallowerIsSwallowed(Nested(issues), p, q, below, above);
  }
}
