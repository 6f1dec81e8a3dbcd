/** Validation reports and the nested error tree built from them (vyuh/src/validation.rs).

    A rendered error is an opaque `string` here: the builder clones it into the tree and never looks inside. */
module ErrorTree {
  import opened Wrappers

  datatype PathSeg = Field(name: string) | Index(idx: nat) | Key(key: string)

  datatype Issue = Issue(path: seq<PathSeg>, message: string)

  datatype Tree = Null | Leaf(message: string) | Arr(items: seq<Tree>) | Obj(entries: map<string, Tree>)

  const NON_FIELD := "non_field_errors"
  const EMPTY_OBJECT := Obj(map[])

  // ---------------------------------------------------------------------------
  // The builder, on values
  // ---------------------------------------------------------------------------

  function Text(seg: PathSeg): string
    requires !seg.Index?
  {
    if seg.Field? then seg.name else seg.key
  }

  function Nulls(n: nat): (r: seq<Tree>)
    ensures |r| == n && forall i :: 0 <= i < n ==> r[i] == Null
  {
    seq(n, _ => Null)
  }

  /** The array grown with nulls until it has at least n elements. */
  function Padded(items: seq<Tree>, n: nat): (r: seq<Tree>)
    ensures |r| == if |items| < n then n else |items|
    ensures forall i :: 0 <= i < |r| ==> r[i] == if i < |items| then items[i] else Null
  {
    items + Nulls(if |items| < n then n - |items| else 0)
  }

  /** Appends a message to an array; anything else swallows it. */
  function Pushed(t: Tree, msg: string): Tree {
    if t.Arr? then Arr(t.items + [Leaf(msg)]) else t
  }

  function EntryOr(t: Tree, key: string, fallback: Tree): Tree
    requires t.Obj?
  {
    if key in t.entries then t.entries[key] else fallback
  }

  function AsObject(t: Tree): (r: Tree)
    ensures r.Obj?
  {
    if t.Obj? then t else EMPTY_OBJECT
  }

  /** The tree after inserting one message. */
  function Inserted(cur: Tree, segs: seq<PathSeg>, msg: string): Tree
    decreases |segs|
  {
    if segs == [] then cur
    else if segs[0].Index? then
      var i := segs[0].idx;
      var items := Padded(if cur.Arr? then cur.items else [], i + 1);
      var elem := items[i];
      var elem' := if |segs| == 1 then Pushed(if elem.Null? then Arr([]) else elem, msg)
                   else Inserted(AsObject(elem), segs[1..], msg);
      Arr(items[i := elem'])
    else if !cur.Obj? then cur
    else
      var key := Text(segs[0]);
      var entry' := if |segs| == 1 then Pushed(EntryOr(cur, key, Arr([])), msg)
                    else Inserted(AsObject(EntryOr(cur, key, EMPTY_OBJECT)), segs[1..], msg);
      Obj(cur.entries[key := entry'])
  }

  /** One turn of the builder's loop; an issue at the root has its own branch. */
  function AddIssue(root: Tree, issue: Issue): Tree {
    if issue.path == [] then
      if root.Obj? then Obj(root.entries[NON_FIELD := Pushed(EntryOr(root, NON_FIELD, Arr([])), issue.message)])
      else root
    else Inserted(root, issue.path, issue.message)
  }

  function Nested(issues: seq<Issue>): Tree {
    if issues == [] then EMPTY_OBJECT
    else AddIssue(Nested(issues[..|issues| - 1]), issues[|issues| - 1])
  }

  function PrefixedIssues(issues: seq<Issue>, seg: PathSeg): (r: seq<Issue>)
    ensures |r| == |issues|
    ensures forall i :: 0 <= i < |r| ==> r[i] == Issue([seg] + issues[i].path, issues[i].message)
  {
    seq(|issues|, i requires 0 <= i < |issues| => Issue([seg] + issues[i].path, issues[i].message))
  }

  function FlatAdded(m: map<string, seq<string>>, issue: Issue): map<string, seq<string>> {
    if issue.path == [] then Appended(m, NON_FIELD, issue.message)
    else if |issue.path| == 1 && issue.path[0].Field? then Appended(m, issue.path[0].name, issue.message)
    else m
  }

  function Appended(m: map<string, seq<string>>, key: string, msg: string): map<string, seq<string>> {
    m[key := (if key in m then m[key] else []) + [msg]]
  }

  function Flat(issues: seq<Issue>): map<string, seq<string>> {
    if issues == [] then map[]
    else FlatAdded(Flat(issues[..|issues| - 1]), issues[|issues| - 1])
  }

  // ---------------------------------------------------------------------------
  // The report object
  // ---------------------------------------------------------------------------

  class ValidationReport {
    var issues: seq<Issue>

    constructor ()
      ensures issues == []
    {
      issues := [];
    }

    method Push(path: seq<PathSeg>, message: string)
      modifies this
      ensures issues == old(issues) + [Issue(path, message)]
    {
      issues := issues + [Issue(path, message)];
    }

    method Merge(other: seq<Issue>, prefix: Option<PathSeg>)
      modifies this
      ensures issues == old(issues) + if prefix.Some? then PrefixedIssues(other, prefix.value) else other
    {
      ghost var added := if prefix.Some? then PrefixedIssues(other, prefix.value) else other;
      for k := 0 to |other|
        invariant issues == old(issues) + added[..k]
      {
        var issue := other[k];
        if prefix.Some? {
          issue := issue.(path := [prefix.value] + issue.path);
        }
        issues := issues + [issue];
        assert added[..k + 1] == added[..k] + [issue];
      }
      assert added[..|other|] == added;
    }

    method Prefix(seg: PathSeg)
      modifies this
      ensures issues == PrefixedIssues(old(issues), seg)
    {
      for k := 0 to |issues|
        invariant |issues| == |old(issues)|
        invariant forall i :: 0 <= i < k ==> issues[i] == PrefixedIssues(old(issues), seg)[i]
        invariant forall i :: k <= i < |issues| ==> issues[i] == old(issues)[i]
      {
        issues := issues[k := issues[k].(path := [seg] + issues[k].path)];
      }
    }

    method ToNested() returns (root: Tree)
      ensures root == Nested(issues)
    {
      root := EMPTY_OBJECT;
      for k := 0 to |issues|
        invariant root == Nested(issues[..k])
      {
        assert issues[..k + 1][..k] == issues[..k];
        if issues[k].path == [] {
          if root.Obj? {
            var entry := EntryOr(root, NON_FIELD, Arr([]));
            root := Obj(root.entries[NON_FIELD := Pushed(entry, issues[k].message)]);
          }
        } else {
          root := InsertAt(root, issues[k].path, issues[k].message);
        }
      }
      assert issues[..|issues|] == issues;
    }

    method ToFieldMapFlat() returns (m: map<string, seq<string>>)
      ensures m == Flat(issues)
    {
      m := map[];
      for k := 0 to |issues|
        invariant m == Flat(issues[..k])
      {
        assert issues[..k + 1][..k] == issues[..k];
        var issue := issues[k];
        if issue.path == [] {
          m := Appended(m, NON_FIELD, issue.message);
          continue;
        }
        if |issue.path| == 1 && issue.path[0].Field? {
          m := Appended(m, issue.path[0].name, issue.message);
        }
      }
      assert issues[..|issues|] == issues;
    }
  }

  /** The loop that pads an array with nulls until it has the position. */
  method PadTo(start: seq<Tree>, position: nat) returns (items: seq<Tree>)
    ensures items == Padded(start, position + 1)
  {
    items := start;
    while |items| <= position
      invariant |start| <= |items| <= (if |start| < position + 1 then position + 1 else |start|)
      invariant items[..|start|] == start
      invariant forall k :: |start| <= k < |items| ==> items[k] == Null
    {
      items := items + [Null];
    }
  }

  /** The recursive insertion. */
  method InsertAt(cur: Tree, segs: seq<PathSeg>, msg: string) returns (r: Tree)
    ensures r == Inserted(cur, segs, msg)
    decreases |segs|, 1
  {
    r := cur;
    if segs == [] {
      return;
    }
    match segs[0]
    case Index(i) =>
      r := InsertAtIndex(cur, segs, msg);
    case _ =>
      if !r.Obj? {
        return;
      }
      var key := Text(segs[0]);
      if |segs| == 1 {
        var entry := EntryOr(r, key, Arr([]));
        r := Obj(r.entries[key := Pushed(entry, msg)]);
      } else {
        var entry := EntryOr(r, key, EMPTY_OBJECT);
        if !entry.Obj? {
          entry := EMPTY_OBJECT;
        }
        entry := InsertAt(entry, segs[1..], msg);
        r := Obj(r.entries[key := entry]);
      }
  }

  method InsertAtIndex(cur: Tree, segs: seq<PathSeg>, msg: string) returns (r: Tree)
    requires segs != [] && segs[0].Index?
    ensures r == Inserted(cur, segs, msg)
    decreases |segs|, 0
  {
    var i := segs[0].idx;
    r := cur;
    if !r.Arr? {
      r := Arr([]);
    }
    var items := PadTo(r.items, i);
    var elem := items[i];
    if |segs| == 1 {
      if elem.Null? {
        elem := Arr([]);
      }
      elem := Pushed(elem, msg);
    } else {
      if !elem.Obj? {
        elem := EMPTY_OBJECT;
      }
      elem := InsertAt(elem, segs[1..], msg);
    }
    r := Arr(items[i := elem]);
  }

  // ---------------------------------------------------------------------------
  // Reading the tree, and the paths that collide in it
  // ---------------------------------------------------------------------------

  /** Fields and keys are told apart by text alone, and the root is the field `non_field_errors`. */
  function Canon(path: seq<PathSeg>): (r: seq<PathSeg>)
    ensures r != []
    ensures IsCanonical(r)
  {
    if path == [] then [Field(NON_FIELD)]
    else seq(|path|, i requires 0 <= i < |path| => if path[i].Key? then Field(path[i].key) else path[i])
  }

  predicate IsCanonical(path: seq<PathSeg>) {
    forall i :: 0 <= i < |path| ==> !path[i].Key?
  }

  function CanonIssues(issues: seq<Issue>): (r: seq<Issue>)
    ensures |r| == |issues|
    ensures forall i :: 0 <= i < |r| ==> r[i] == Issue(Canon(issues[i].path), issues[i].message)
  {
    seq(|issues|, i requires 0 <= i < |issues| => Issue(Canon(issues[i].path), issues[i].message))
  }

  /** Follows a path of names and positions down the tree. */
  function Lookup(t: Tree, path: seq<PathSeg>): Option<Tree>
    decreases |path|
  {
    if path == [] then Some(t)
    else if path[0].Index? then
      if t.Arr? && path[0].idx < |t.items| then Lookup(t.items[path[0].idx], path[1..]) else None
    else
      if t.Obj? && Text(path[0]) in t.entries then Lookup(t.entries[Text(path[0])], path[1..]) else None
  }

  function Leaves(msgs: seq<string>): (r: seq<Tree>)
    ensures |r| == |msgs|
    ensures forall i :: 0 <= i < |r| ==> r[i] == Leaf(msgs[i])
  {
    seq(|msgs|, i requires 0 <= i < |msgs| => Leaf(msgs[i]))
  }

  /** The messages reported at one canonical path, in report order. */
  function MessagesAt(issues: seq<Issue>, path: seq<PathSeg>): seq<string> {
    if issues == [] then []
    else
      var before := MessagesAt(issues[..|issues| - 1], path);
      var last := issues[|issues| - 1];
      if Canon(last.path) == path then before + [last.message] else before
  }

  /** Two canonical paths that cannot both keep their messages: one runs through the other's leaf, one
      needs an array where the other needs an object, or they share a position below the first segment. */
  predicate Clash(p: seq<PathSeg>, q: seq<PathSeg>, top: bool)
    decreases |p|
  {
    if p == [] || q == [] then p != q
    else if p[0].Index? || q[0].Index? then
      !top || !p[0].Index? || !q[0].Index? || (p[0] == q[0] && Clash(p[1..], q[1..], false))
    else p[0] == q[0] && Clash(p[1..], q[1..], false)
  }

  ghost predicate ClashFree(issues: seq<Issue>) {
    forall i, j :: 0 <= i < j < |issues| ==> !Clash(Canon(issues[i].path), Canon(issues[j].path), true)
  }

  /** What the tree is for: every reported path leads to exactly the messages reported there. */
  ghost predicate Faithful(issues: seq<Issue>) {
    forall i :: 0 <= i < |issues| ==>
      var path := Canon(issues[i].path);
      Lookup(Nested(issues), path) == Some(Arr(Leaves(MessagesAt(issues, path))))
  }
}
