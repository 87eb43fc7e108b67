/** The sorted list of hashtags of the community-detection program
    (comp10002/a2/program.c): a singly linked list with head and foot references, kept free of
    duplicates and in strcmp order as tags are inserted one by one. */
module TagLists {

  /** A user profile (user_t): the hashtags are the first `tag_count` entries of the tag
      array, here the sequence `tags`. */
  datatype User = User(id: int, year: int, tags: seq<string>)

  // ---------------------------------------------------------------- strcmp

  /** The C library's strcmp on tags: negative, zero or positive as `s` comes before, equals
      or comes after `t` in the lexicographic order of character codes, a proper prefix coming
      first. Only the sign is modelled. */
  function Strcmp(s: string, t: string): (r: int)
    ensures -1 <= r <= 1
    ensures r == 0 <==> s == t
    decreases |s|
  {
    if |s| == 0 then (if |t| == 0 then 0 else -1)
    else if |t| == 0 then 1
    else if s[0] < t[0] then -1
    else if s[0] > t[0] then 1
    else
      var r := Strcmp(s[1..], t[1..]);
      assert r == 0 ==> s == [s[0]] + s[1..] == [t[0]] + t[1..] == t;
      r
  }

  /** Swapping the arguments of strcmp flips the sign. */
  lemma {:induction false} StrcmpAntisymmetric(s: string, t: string)
    ensures Strcmp(t, s) == -Strcmp(s, t)
    decreases |s|
  {
    if |s| > 0 && |t| > 0 && s[0] == t[0] {
      StrcmpAntisymmetric(s[1..], t[1..]);
    }
  }

  /** The order strcmp defines is transitive. */
  lemma {:induction false} StrcmpTransitive(s: string, t: string, u: string)
    requires Strcmp(s, t) < 0 && Strcmp(t, u) < 0
    ensures Strcmp(s, u) < 0
    decreases |s|
  {
    if |s| > 0 && |t| > 0 && |u| > 0 && s[0] == t[0] && t[0] == u[0] {
      StrcmpTransitive(s[1..], t[1..], u[1..]);
    }
  }

  /** Every tag comes strictly before every later one: sorted and free of duplicates. */
  ghost predicate StrictlySorted(s: seq<string>)
  {
    forall i, j :: 0 <= i < j < |s| ==> Strcmp(s[i], s[j]) < 0
  }

  // ---------------------------------------------------------------- the list as a sequence

  /** What insert_unique_in_order makes of the list contents `s`: walking from the head, `v`
      goes before the first tag it precedes, is dropped at the first tag it equals, and goes
      at the foot when it follows every tag. */
  function InsertSorted(s: seq<string>, v: string): (r: seq<string>)
    ensures |r| == |s| || |r| == |s| + 1
  {
    if |s| == 0 then [v]
    else if Strcmp(v, s[0]) < 0 then [v] + s
    else if Strcmp(v, s[0]) == 0 then s
    else [s[0]] + InsertSorted(s[1..], v)
  }

  /** The tags after insertion are the old tags and `v`, whatever the order of the old tags. */
  lemma {:induction false} InsertSortedElems(s: seq<string>, v: string)
    ensures forall x :: x in InsertSorted(s, v) <==> x in s || x == v
  {
    if |s| > 0 && Strcmp(v, s[0]) > 0 {
      InsertSortedElems(s[1..], v);
      assert s == [s[0]] + s[1..];
    }
  }

  /** Insertion keeps the list sorted and free of duplicates. */
  lemma {:induction false} InsertSortedSorted(s: seq<string>, v: string)
    requires StrictlySorted(s)
    ensures StrictlySorted(InsertSorted(s, v))
  {
    if |s| > 0 {
      var r := InsertSorted(s, v);
      if Strcmp(v, s[0]) < 0 {
        forall j | 0 < j < |r| ensures Strcmp(r[0], r[j]) < 0 {
          if j > 1 {
            StrcmpTransitive(v, s[0], s[j - 1]);
          }
        }
      } else if Strcmp(v, s[0]) > 0 {
        var rest := InsertSorted(s[1..], v);
        InsertSortedSorted(s[1..], v);
        InsertSortedElems(s[1..], v);
        StrcmpAntisymmetric(v, s[0]);
        forall j | 0 <= j < |rest| ensures Strcmp(s[0], rest[j]) < 0 {
          assert rest[j] in rest;
          if rest[j] != v {
            var k :| 0 <= k < |s[1..]| && s[1..][k] == rest[j];
            assert s[k + 1] == rest[j];
          }
        }
      }
    }
  }

  /** Inserting a tag the sorted list already holds changes nothing. */
  lemma InsertSortedPresent(s: seq<string>, v: string)
    requires StrictlySorted(s) && v in s
    ensures InsertSorted(s, v) == s
  {
    var k :| 0 <= k < |s| && s[k] == v;
    forall j | 0 <= j < k
      ensures Strcmp(v, s[j]) > 0
    {
      StrcmpAntisymmetric(s[j], v);
    }
    InsertSortedFound(s, v, k);
  }

  /** Insertion is idempotent on a sorted list. */
  lemma InsertSortedIdempotent(s: seq<string>, v: string)
    requires StrictlySorted(s)
    ensures InsertSorted(InsertSorted(s, v), v) == InsertSorted(s, v)
  {
    InsertSortedSorted(s, v);
    InsertSortedElems(s, v);
    InsertSortedPresent(InsertSorted(s, v), v);
  }

  /** Two sorted duplicate-free lists with the same tags are the same list: so on a sorted
      list, insertion yields the one sorted list of the old tags and `v`. */
  lemma {:induction false} SortedUnique(p: seq<string>, q: seq<string>)
    requires StrictlySorted(p) && StrictlySorted(q)
    requires forall x :: x in p <==> x in q
    ensures p == q
  {
    assert |p| == 0 <==> |q| == 0 by {
      if |p| > 0 { assert p[0] in p; }
      if |q| > 0 { assert q[0] in q; }
    }
    if |p| > 0 {
      assert p[0] == q[0] by {
        assert p[0] in p && q[0] in q;
        HeadIsLeast(p, q[0]);
        HeadIsLeast(q, p[0]);
        StrcmpAntisymmetric(p[0], q[0]);
      }
      forall x ensures x in p[1..] <==> x in q[1..] {
        SortedTail(p, x);
        SortedTail(q, x);
      }
      SortedUnique(p[1..], q[1..]);
      assert p == [p[0]] + p[1..] && q == [q[0]] + q[1..];
    }
  }

  /** The head of a sorted duplicate-free list comes before every other tag in it. */
  lemma HeadIsLeast(s: seq<string>, x: string)
    requires StrictlySorted(s) && x in s
    ensures x == s[0] || Strcmp(s[0], x) < 0
  {
    var k :| 0 <= k < |s| && s[k] == x;
  }

  /** In a sorted duplicate-free list, the tags after the head are the tags other than it. */
  lemma SortedTail(s: seq<string>, x: string)
    requires StrictlySorted(s) && |s| > 0
    ensures x in s[1..] <==> x in s && x != s[0]
  {
    assert s == [s[0]] + s[1..];
    if x in s[1..] {
      var k :| 0 <= k < |s[1..]| && s[1..][k] == x;
      assert s[k + 1] == x;
    }
  }

  /** What insert_tags makes of the list contents `s`: the tags of `vs` inserted in turn. */
  function InsertAll(s: seq<string>, vs: seq<string>): (r: seq<string>)
    ensures |s| <= |r| <= |s| + |vs|
  {
    if |vs| == 0 then s
    else InsertSorted(InsertAll(s, vs[..|vs| - 1]), vs[|vs| - 1])
  }

  /** insert_tags keeps the list sorted and free of duplicates, and the tags afterwards are
      the old tags and those of `vs`. */
  lemma {:induction false} InsertAllSortedElems(s: seq<string>, vs: seq<string>)
    requires StrictlySorted(s)
    ensures StrictlySorted(InsertAll(s, vs))
    ensures forall x :: x in InsertAll(s, vs) <==> x in s || x in vs
  {
    if |vs| > 0 {
      var init, last := vs[..|vs| - 1], vs[|vs| - 1];
      InsertAllSortedElems(s, init);
      InsertSortedSorted(InsertAll(s, init), last);
      InsertSortedElems(InsertAll(s, init), last);
      assert vs == init + [last];
    }
  }

  // ---------------------------------------------------------------- the linked list

  /** node_t: a tag and the next node. The tag is copied in when the node is made and never
      changes afterwards. */
  class Node {
    const data: string
    var next: Node?

    /** The node insert_unique_in_order allocates: the tag copied in, no successor. */
    constructor (data: string)
      ensures this.data == data && next == null
    {
      this.data := data;
      next := null;
    }
  }

  /** list_t: the head and foot of a chain of nodes. `Nodes` is the chain from head to foot,
      `Contents` the tags along it and `Repr` the objects the list is made of. */
  class TagList {
    var head: Node?
    var foot: Node?
    ghost var Contents: seq<string>
    ghost var Nodes: seq<Node>
    ghost var Repr: set<object>

    /** The chain is made of distinct nodes of `Repr` holding the tags of `Contents`, each
        linked to the next and the last to nothing; `head` is the first node and `foot` the
        last (both null when the list is empty). */
    ghost predicate Valid()
      reads this, Repr
    {
      && this in Repr
      && |Nodes| == |Contents|
      && (forall i :: 0 <= i < |Nodes| ==> Nodes[i] in Repr && Nodes[i].data == Contents[i])
      && (forall i :: 0 <= i < |Nodes| - 1 ==> Nodes[i].next == Nodes[i + 1])
      && (|Nodes| > 0 ==> Nodes[|Nodes| - 1].next == null)
      && (forall i, j :: 0 <= i < j < |Nodes| ==> Nodes[i] != Nodes[j])
      && head == (if |Nodes| == 0 then null else Nodes[0])
      && foot == (if |Nodes| == 0 then null else Nodes[|Nodes| - 1])
    }

    /** make_empty_list: a list with no nodes. */
    constructor ()
      ensures Valid() && fresh(Repr)
      ensures Contents == []
    {
      head, foot := null, null;
      Contents, Nodes := [], [];
      Repr := {this};
    }

    /** insert_unique_in_order: links a new node holding `value` in before the first node
        whose tag it precedes, or at the foot, unless a node already holds `value`. */
    method InsertUniqueInOrder(value: string)
      requires Valid()
      modifies Repr
      ensures Valid() && fresh(Repr - old(Repr))
      ensures Contents == InsertSorted(old(Contents), value)
    {
      var node: Node? := new Node(value);
      if foot == null {
        LinkFirst(node);
        return;
      }
      var prev: Node? := null;
      var curr: Node? := head;
      ghost var k := 0;
      while curr != null
        invariant Valid() && Contents == old(Contents) && Nodes == old(Nodes) && Repr == old(Repr)
        invariant node != null && fresh(node) && node.data == value && node.next == null
        invariant 0 <= k <= |Nodes|
        invariant curr == if k < |Nodes| then Nodes[k] else null
        invariant prev == if k == 0 then null else Nodes[k - 1]
        invariant forall j :: 0 <= j < k ==> Strcmp(value, Contents[j]) > 0
        decreases |Nodes| - k
      {
        var cmp := Strcmp(value, curr.data);
        if cmp < 0 {
          InsertSortedAt(Contents, value, k);
          LinkBefore(prev, node, curr, k);
          break;
        } else if cmp == 0 {
          InsertSortedFound(Contents, value, k);
          node := null;
          break;
        }
        prev := curr;
        curr := curr.next;
        k := k + 1;
      }
      if node != null && node.next == null {
        InsertSortedAt(Contents, value, k);
        LinkAtFoot(node);
      }
    }

    /** The first insertion of insert_unique_in_order: `node` becomes both head and foot of
        the empty list. */
    method LinkFirst(node: Node)
      requires Valid() && |Nodes| == 0 && node !in Repr && node.next == null
      modifies this
      ensures Valid()
      ensures Nodes == [node] && Contents == [node.data] && Repr == old(Repr) + {node}
    {
      head, foot := node, node;
      Contents, Nodes, Repr := [node.data], [node], Repr + {node};
    }

    /** The insertion between two nodes of insert_unique_in_order: `node` becomes position
        `k`, after `prev` (or as the new head) and before `curr`. */
    method LinkBefore(prev: Node?, node: Node, curr: Node, ghost k: int)
      requires Valid() && 0 <= k < |Nodes| && node !in Repr
      requires curr == Nodes[k] && prev == if k == 0 then null else Nodes[k - 1]
      modifies this, prev, node
      ensures Valid()
      ensures Nodes == old(Nodes[..k]) + [node] + old(Nodes[k..])
      ensures Contents == old(Contents[..k]) + [node.data] + old(Contents[k..])
      ensures Repr == old(Repr) + {node}
      ensures node.next == curr
    {
      ghost var ns, cs := Nodes, Contents;
      label Walked:
      if prev != null {
        prev.next := node;
      } else {
        head := node;
      }
      node.next := curr;
      Contents, Nodes, Repr := cs[..k] + [node.data] + cs[k..], ns[..k] + [node] + ns[k..], Repr + {node};
      SpliceKeeps(ns, cs, node, k, old(Repr));
      forall i | 0 <= i < |Nodes| - 1 ensures Nodes[i].next == Nodes[i + 1] {
        SpliceAt(ns, node, k, i);
        SpliceAt(ns, node, k, i + 1);
        if i < k - 1 {
          assert ns[i] != ns[k - 1] && ns[i] != node;
          assert old@Walked(ns[i].next) == ns[i + 1];
        } else if i > k {
          assert (k == 0 || ns[i - 1] != ns[k - 1]) && ns[i - 1] != node;
          assert old@Walked(ns[i - 1].next) == ns[i];
        }
      }
    }

    /** The insertion at the foot of insert_unique_in_order: `node` follows the old foot and
        becomes the foot. */
    method LinkAtFoot(node: Node)
      requires Valid() && |Nodes| > 0 && node !in Repr && node.next == null
      modifies this, foot
      ensures Valid()
      ensures Nodes == old(Nodes) + [node]
      ensures Contents == old(Contents) + [node.data]
      ensures Repr == old(Repr) + {node}
    {
      ghost var ns := Nodes;
      label Walked:
      foot.next := node;
      foot := node;
      Contents, Nodes, Repr := Contents + [node.data], ns + [node], Repr + {node};
      forall i | 0 <= i < |Nodes| - 1 ensures Nodes[i].next == Nodes[i + 1] {
        if i < |ns| - 1 {
          assert ns[i] != ns[|ns| - 1];
          assert old@Walked(ns[i].next) == ns[i + 1];
        }
      }
    }
  }

  /** Position `i` of `s` with `x` spliced in at position `k`. */
  lemma SpliceAt<T>(s: seq<T>, x: T, k: int, i: int)
    requires 0 <= k <= |s| && 0 <= i <= |s|
    ensures (s[..k] + [x] + s[k..])[i] == if i < k then s[i] else if i == k then x else s[i - 1]
  {
  }

  /** Splicing a node that is not yet in the chain, with its tag, into a chain of distinct
      nodes of `repr` keeps the nodes distinct, in `repr` plus the new node, and matched with
      the tags. */
  lemma SpliceKeeps(ns: seq<Node>, cs: seq<string>, node: Node, k: int, repr: set<object>)
    requires 0 <= k <= |ns| == |cs| && node !in repr
    requires forall i :: 0 <= i < |ns| ==> ns[i] in repr && ns[i].data == cs[i]
    requires forall i, j :: 0 <= i < j < |ns| ==> ns[i] != ns[j]
    ensures var ns', cs' := ns[..k] + [node] + ns[k..], cs[..k] + [node.data] + cs[k..];
            && |ns'| == |cs'|
            && (forall i :: 0 <= i < |ns'| ==> ns'[i] in repr + {node} && ns'[i].data == cs'[i])
            && (forall i, j :: 0 <= i < j < |ns'| ==> ns'[i] != ns'[j])
  {
    var ns', cs' := ns[..k] + [node] + ns[k..], cs[..k] + [node.data] + cs[k..];
    forall i | 0 <= i < |ns'| ensures ns'[i] in repr + {node} && ns'[i].data == cs'[i] {
      SpliceAt(ns, node, k, i);
      SpliceAt(cs, node.data, k, i);
    }
    forall i, j | 0 <= i < j < |ns'| ensures ns'[i] != ns'[j] {
      SpliceAt(ns, node, k, i);
      SpliceAt(ns, node, k, j);
    }
  }

  /** Walking past the tags `value` follows and stopping at one it precedes (or at the end)
      finds the place InsertSorted puts it. */
  lemma {:induction false} InsertSortedAt(s: seq<string>, v: string, k: int)
    requires 0 <= k <= |s|
    requires forall j :: 0 <= j < k ==> Strcmp(v, s[j]) > 0
    requires k < |s| ==> Strcmp(v, s[k]) < 0
    ensures InsertSorted(s, v) == s[..k] + [v] + s[k..]
  {
    if k > 0 {
      InsertSortedAt(s[1..], v, k - 1);
      assert s[1..][..k - 1] == s[1..k];
      assert s[..k] == [s[0]] + s[1..k];
    }
  }

  /** Walking past the tags `value` follows and stopping at one it equals leaves the tags as
      InsertSorted does. */
  lemma {:induction false} InsertSortedFound(s: seq<string>, v: string, k: int)
    requires 0 <= k < |s|
    requires forall j :: 0 <= j < k ==> Strcmp(v, s[j]) > 0
    requires Strcmp(v, s[k]) == 0
    ensures InsertSorted(s, v) == s
  {
    if k > 0 {
      InsertSortedFound(s[1..], v, k - 1);
      assert s == [s[0]] + s[1..];
    }
  }

  /** insert_tags: inserts the user's tags into the list one by one, in order. */
  method InsertTags(tags: TagList, user: User)
    requires tags.Valid()
    modifies tags.Repr
    ensures tags.Valid() && fresh(tags.Repr - old(tags.Repr))
    ensures tags.Contents == InsertAll(old(tags.Contents), user.tags)
  {
    for i := 0 to |user.tags|
      invariant tags.Valid() && fresh(tags.Repr - old(tags.Repr))
      invariant tags.Contents == InsertAll(old(tags.Contents), user.tags[..i])
    {
      assert user.tags[..i + 1][..i] == user.tags[..i];
      tags.InsertUniqueInOrder(user.tags[i]);
    }
    assert user.tags[..|user.tags|] == user.tags;
  }
}
