/** The course catalog: an unbalanced binary search tree keyed by course number,
    with insert-or-update, lookup, in-order traversal and clear. */
module CourseBst {
  import opened Wrappers
  import opened Text

  datatype Course = Course(number: string, title: string, prerequisites: seq<string>)

  /** A tree node owns one course; `Leaf` stands for the null child pointer. */
  datatype Tree = Leaf | Node(left: Tree, data: Course, right: Tree)

  // ---------------------------------------------------------------------
  // Key order: `std::string` operator< (lexicographic, character by character,
  // a proper prefix before the longer string)

  predicate Less(a: string, b: string)
    decreases |a|
  {
    if b == [] then false
    else if a == [] then true
    else if a[0] != b[0] then a[0] < b[0]
    else Less(a[1..], b[1..])
  }

  lemma {:induction false} LessIrreflexive(a: string)
    ensures !Less(a, a)
  {
    if a != [] {
      LessIrreflexive(a[1..]);
    }
  }

  lemma {:induction false} LessTransitive(a: string, b: string, c: string)
    requires Less(a, b) && Less(b, c)
    ensures Less(a, c)
    decreases |a|
  {
    if a != [] && a[0] == b[0] && b[0] == c[0] {
      LessTransitive(a[1..], b[1..], c[1..]);
    }
  }

  /** Any two distinct keys are ordered one way or the other. */
  lemma {:induction false} LessTotal(a: string, b: string)
    ensures a == b || Less(a, b) || Less(b, a)
    decreases |a|
  {
    if a != [] && b != [] && a[0] == b[0] {
      LessTotal(a[1..], b[1..]);
      if a[1..] == b[1..] {
        assert a == [a[0]] + a[1..] && b == [b[0]] + b[1..];
      }
    }
  }

  // ---------------------------------------------------------------------
  // The abstract value of a tree and its invariant

  /** The catalog a tree holds: course number to course. */
  function Contents(t: Tree): (m: map<string, Course>)
    ensures forall k :: k in m ==> m[k].number == k
  {
    match t
    case Leaf => map[]
    case Node(l, d, r) => (Contents(l) + Contents(r))[d.number := d]
  }

  /** The search-tree property: every key in a left subtree is smaller, every key
      in a right subtree larger, than the key of the node. */
  predicate Ordered(t: Tree) {
    match t
    case Leaf => true
    case Node(l, d, r) =>
      Ordered(l) && Ordered(r) &&
      (forall k :: k in Contents(l) ==> Less(k, d.number)) &&
      (forall k :: k in Contents(r) ==> Less(d.number, k))
  }

  function NodeCount(t: Tree): nat {
    match t
    case Leaf => 0
    case Node(l, _, r) => NodeCount(l) + 1 + NodeCount(r)
  }

  /** `inOrderRec`: left subtree, node, right subtree; the visited courses as a sequence. */
  function InOrderRec(t: Tree): seq<Course> {
    match t
    case Leaf => []
    case Node(l, d, r) => InOrderRec(l) + [d] + InOrderRec(r)
  }

  /** Some course in `s` has number `k`. */
  predicate Lists(s: seq<Course>, k: string) {
    exists i :: 0 <= i < |s| && s[i].number == k
  }

  predicate StrictlyAscending(s: seq<Course>) {
    forall i, j :: 0 <= i < j < |s| ==> Less(s[i].number, s[j].number)
  }

  /** A key smaller than the node's can only be in the left subtree. */
  lemma SearchLeft(l: Tree, d: Course, r: Tree, k: string)
    requires Ordered(Node(l, d, r)) && Less(k, d.number)
    ensures k != d.number && k !in Contents(r)
    ensures k in Contents(Node(l, d, r)) <==> k in Contents(l)
    ensures k in Contents(l) ==> Contents(Node(l, d, r))[k] == Contents(l)[k]
  {
    LessIrreflexive(k);
    if k in Contents(r) {
      LessTransitive(k, d.number, k);
    }
  }

  /** A key larger than the node's can only be in the right subtree. */
  lemma SearchRight(l: Tree, d: Course, r: Tree, k: string)
    requires Ordered(Node(l, d, r)) && Less(d.number, k)
    ensures k != d.number && k !in Contents(l)
    ensures k in Contents(Node(l, d, r)) <==> k in Contents(r)
    ensures k in Contents(r) ==> Contents(Node(l, d, r))[k] == Contents(r)[k]
  {
    LessIrreflexive(k);
    if k in Contents(l) {
      LessTransitive(k, d.number, k);
    }
  }

  /** In a search tree every node holds a distinct key, so the node count is the
      number of catalog entries. */
  lemma {:induction false} NodeCountIsSize(t: Tree)
    requires Ordered(t)
    ensures NodeCount(t) == |Contents(t)|
  {
    match t
    case Leaf =>
    case Node(l, d, r) =>
      NodeCountIsSize(l);
      NodeCountIsSize(r);
      var cl, cr := Contents(l), Contents(r);
      forall k | k in cl
        ensures k !in cr && k != d.number
      {
        SearchLeft(l, d, r, k);
      }
      assert d.number !in cr by {
        if d.number in cr {
          LessIrreflexive(d.number);
        }
      }
      DisjointUnionSize(cl, cr, d.number, d);
  }

  /** Two maps with disjoint keys, plus one fresh key, have the sum of their sizes plus one. */
  lemma DisjointUnionSize<K, V>(a: map<K, V>, b: map<K, V>, k: K, v: V)
    requires forall x :: x in a ==> x !in b && x != k
    requires k !in b
    ensures |(a + b)[k := v]| == |a| + |b| + 1
  {
    assert a.Keys * b.Keys == {};
    assert (a + b).Keys == a.Keys + b.Keys;
    assert |(a + b).Keys| == |a.Keys| + |b.Keys|;
    assert (a + b)[k := v].Keys == (a + b).Keys + {k};
  }

  /** Updating one side of a union commutes with the node's own update when the
      updated key is neither the node's key nor shadowed by the other side. */
  lemma UpdateLeftOfUnion<K, V>(a: map<K, V>, b: map<K, V>, dk: K, dv: V, ck: K, cv: V)
    requires ck != dk && ck !in b
    ensures (a[ck := cv] + b)[dk := dv] == ((a + b)[dk := dv])[ck := cv]
  {
  }

  lemma UpdateRightOfUnion<K, V>(a: map<K, V>, b: map<K, V>, dk: K, dv: V, ck: K, cv: V)
    requires ck != dk
    ensures (a + b[ck := cv])[dk := dv] == ((a + b)[dk := dv])[ck := cv]
  {
  }

  /** Re-linking a left subtree into which `c` was inserted keeps the search-tree
      property and inserts `c` into the whole catalog. */
  lemma InsertLeftStep(l: Tree, d: Course, r: Tree, c: Course, nl: Tree)
    requires Ordered(Node(l, d, r)) && Less(c.number, d.number)
    requires Ordered(nl) && Contents(nl) == Contents(l)[c.number := c]
    ensures Ordered(Node(nl, d, r))
    ensures c.number in Contents(Node(l, d, r)) <==> c.number in Contents(l)
    ensures Contents(Node(nl, d, r)) == Contents(Node(l, d, r))[c.number := c]
  {
    SearchLeft(l, d, r, c.number);
    UpdateLeftOfUnion(Contents(l), Contents(r), d.number, d, c.number, c);
  }

  /** The mirror image of InsertLeftStep. */
  lemma InsertRightStep(l: Tree, d: Course, r: Tree, c: Course, nr: Tree)
    requires Ordered(Node(l, d, r)) && Less(d.number, c.number)
    requires Ordered(nr) && Contents(nr) == Contents(r)[c.number := c]
    ensures Ordered(Node(l, d, nr))
    ensures c.number in Contents(Node(l, d, r)) <==> c.number in Contents(r)
    ensures Contents(Node(l, d, nr)) == Contents(Node(l, d, r))[c.number := c]
  {
    SearchRight(l, d, r, c.number);
    UpdateRightOfUnion(Contents(l), Contents(r), d.number, d, c.number, c);
  }

  /** `insertRec`: insert a new node at the leaf where the search ends, or overwrite
      the title and prerequisites of the node whose key equals the course number.
      The flag tells whether a node was added. */
  function InsertRec(t: Tree, c: Course): (r: (Tree, bool))
    requires Ordered(t)
    ensures Ordered(r.0)
    ensures r.1 <==> c.number !in Contents(t)
    ensures Contents(r.0) == Contents(t)[c.number := c]
    ensures NodeCount(r.0) == NodeCount(t) + (if r.1 then 1 else 0)
  {
    match t
    case Leaf => (Node(Leaf, c, Leaf), true)
    case Node(l, d, rt) =>
      if c.number == d.number then
        (Node(l, Course(d.number, c.title, c.prerequisites), rt), false)
      else if Less(c.number, d.number) then
        var sub := InsertRec(l, c);
        InsertLeftStep(l, d, rt, c, sub.0);
        (Node(sub.0, d, rt), sub.1)
      else
        LessTotal(c.number, d.number);
        var sub := InsertRec(rt, c);
        InsertRightStep(l, d, rt, c, sub.0);
        (Node(l, d, sub.0), sub.1)
  }

  /** Every course the in-order traversal visits is the catalog entry for its number. */
  lemma {:induction false} InOrderMembers(t: Tree)
    requires Ordered(t)
    ensures var s := InOrderRec(t);
            |s| == NodeCount(t) &&
            forall i :: 0 <= i < |s| ==> s[i].number in Contents(t) && Contents(t)[s[i].number] == s[i]
  {
    match t
    case Leaf =>
    case Node(l, d, r) =>
      InOrderMembers(l);
      InOrderMembers(r);
      var sl, sr := InOrderRec(l), InOrderRec(r);
      var s := InOrderRec(t);
      forall i | 0 <= i < |s|
        ensures s[i].number in Contents(t) && Contents(t)[s[i].number] == s[i]
      {
        if i < |sl| {
          assert s[i] == sl[i];
          SearchLeft(l, d, r, sl[i].number);
        } else if i > |sl| {
          assert s[i] == sr[i - |sl| - 1];
          SearchRight(l, d, r, sr[i - |sl| - 1].number);
        }
      }
  }

  /** The in-order traversal of a search tree is strictly ascending by course number. */
  lemma {:induction false} InOrderAscending(t: Tree)
    requires Ordered(t)
    ensures StrictlyAscending(InOrderRec(t))
  {
    match t
    case Leaf =>
    case Node(l, d, r) =>
      InOrderAscending(l);
      InOrderAscending(r);
      InOrderMembers(l);
      InOrderMembers(r);
      var sl, sr := InOrderRec(l), InOrderRec(r);
      var s := InOrderRec(t);
      forall i, j | 0 <= i < j < |s|
        ensures Less(s[i].number, s[j].number)
      {
        if j < |sl| {
          assert s[i] == sl[i] && s[j] == sl[j];
        } else if i > |sl| {
          assert s[i] == sr[i - |sl| - 1] && s[j] == sr[j - |sl| - 1];
        } else if i < |sl| && j > |sl| {
          assert s[i] == sl[i] && s[j] == sr[j - |sl| - 1];
          LessTransitive(s[i].number, d.number, s[j].number);
        } else if i < |sl| {
          assert s[i] == sl[i] && s[j] == d;
        } else {
          assert s[i] == d && s[j] == sr[j - |sl| - 1];
        }
      }
  }

  /** Every catalog entry is visited by the in-order traversal. */
  lemma {:induction false} InOrderComplete(t: Tree)
    ensures forall k :: k in Contents(t) ==> Lists(InOrderRec(t), k)
  {
    match t
    case Leaf =>
    case Node(l, d, r) =>
      InOrderComplete(l);
      InOrderComplete(r);
      var sl, sr := InOrderRec(l), InOrderRec(r);
      var s := InOrderRec(t);
      forall k | k in Contents(t)
        ensures Lists(s, k)
      {
        if k == d.number {
          assert s[|sl|].number == k;
        } else if k in Contents(r) {
          assert Lists(sr, k);
          var i :| 0 <= i < |sr| && sr[i].number == k;
          assert s[i + |sl| + 1] == sr[i];
        } else {
          assert k in Contents(l);
          assert Lists(sl, k);
          var i :| 0 <= i < |sl| && sl[i].number == k;
          assert s[i] == sl[i];
        }
      }
  }

  /** A course whose number is already upper case is found again by that number. */
  lemma FindAfterInsert(m: map<string, Course>, c: Course)
    requires IsUpperCase(c.number)
    ensures var k := Upper(c.number);
            k in m[c.number := c] && m[c.number := c][k] == c
  {
    UpperFixpoint(c.number);
  }

  // ---------------------------------------------------------------------
  // The tree object

  class CourseBST {
    var root: Tree
    var count: nat

    /** The search-tree property holds and `count` is the number of nodes. */
    ghost predicate Valid()
      reads this
    {
      Ordered(root) && count == NodeCount(root)
    }

    /** The catalog the tree currently holds. */
    function Model(): map<string, Course>
      reads this
    {
      Contents(root)
    }

    constructor ()
      ensures Valid() && Model() == map[] && count == 0
    {
      root := Leaf;
      count := 0;
    }

    /** Insert a new course, or overwrite the title and prerequisites of the course
        with the same number; the count grows only for a new number. */
    method Insert(c: Course)
      requires Valid()
      modifies this
      ensures Valid()
      ensures Model() == old(Model())[c.number := c]
      ensures count == old(count) + (if c.number in old(Model()) then 0 else 1)
    {
      var r := InsertRec(root, c);
      root := r.0;
      if r.1 {
        count := count + 1;
      }
    }

    /** Upper-case the query, then descend from the root comparing keys. */
    method Find(key: string) returns (r: Option<Course>)
      requires Valid()
      ensures r.Some? <==> Upper(key) in Model()
      ensures r.Some? ==> r.value == Model()[Upper(key)] && r.value.number == Upper(key)
    {
      var k := ToUpperInPlace(key);
      var cur := root;
      while cur.Node?
        invariant Ordered(cur)
        invariant k in Contents(root) <==> k in Contents(cur)
        invariant k in Contents(cur) ==> Contents(root)[k] == Contents(cur)[k]
        decreases cur
      {
        if k == cur.data.number {
          return Some(cur.data);
        }
        if Less(k, cur.data.number) {
          SearchLeft(cur.left, cur.data, cur.right, k);
          cur := cur.left;
        } else {
          LessTotal(k, cur.data.number);
          SearchRight(cur.left, cur.data, cur.right, k);
          cur := cur.right;
        }
      }
      return None;
    }

    /** The courses in the order `InOrder` visits them: every entry once, by
        ascending course number. */
    function InOrder(): (s: seq<Course>)
      reads this
      requires Valid()
      ensures StrictlyAscending(s)
      ensures |s| == |Model()|
      ensures forall i :: 0 <= i < |s| ==> s[i].number in Model() && Model()[s[i].number] == s[i]
      ensures forall k :: k in Model() ==> Lists(s, k)
    {
      InOrderMembers(root);
      InOrderAscending(root);
      InOrderComplete(root);
      NodeCountIsSize(root);
      InOrderRec(root)
    }

    method Clear()
      modifies this
      ensures Valid() && Model() == map[] && count == 0 && InOrderRec(root) == []
    {
      root := Leaf;
      count := 0;
    }

    /** The kept count equals the number of catalog entries. */
    function Size(): (n: nat)
      reads this
      requires Valid()
      ensures n == |Model()|
    {
      NodeCountIsSize(root);
      count
    }
  }

  /**
   * A client of the tree: insert one course into a new tree and look it up by its
   * number. The lookup succeeds exactly when the number is already upper case,
   * because `search` upper-cases the query but the stored key is the number as given.
   */
  method InsertThenFind(c: Course) returns (r: Option<Course>)
    ensures r.Some? <==> IsUpperCase(c.number)
    ensures r.Some? ==> r.value == c
  {
    var bst := new CourseBST();
    bst.Insert(c);
    UpperFixpoint(c.number);
    r := bst.Find(c.number);
  }
}
