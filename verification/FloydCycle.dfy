/** detectCycle of cpp/online_judge/leetcode/editor/cn/环形链表 II.cpp: the entry of a cycle by two pointers. */
module FloydCycle {
  import opened Memory

  /** A finite linked structure: every node's next field is null or a node. */
  type Links = map<Ptr, Ptr>

  ghost predicate Closed(next: Links) {
    NULL !in next && forall p :: p in next ==> next[p] == NULL || next[p] in next
  }

  ghost predicate Good(next: Links, head: Ptr) {
    Closed(next) && (head == NULL || head in next)
  }

  /** The node reached from `head` after `k` steps, null once the end is passed. */
  ghost function Iter(next: Links, head: Ptr, k: nat): (r: Ptr)
    requires Good(next, head)
    ensures r == NULL || r in next
  {
    if k == 0 then head
    else
      var q := Iter(next, head, k - 1);
      if q == NULL then NULL else next[q]
  }

  /** The end is never reached. */
  ghost predicate Cyclic(next: Links, head: Ptr)
    requires Good(next, head)
  {
    forall k: nat :: Iter(next, head, k) != NULL
  }

  /** Step `m` stands on a node that is visited again. */
  ghost predicate OnCycle(next: Links, head: Ptr, m: nat)
    requires Good(next, head)
  {
    Iter(next, head, m) != NULL && exists n: nat :: n > m && Iter(next, head, n) == Iter(next, head, m)
  }

  /** `e` is the first node of the cycle met on the way from `head`. */
  ghost predicate Entry(next: Links, head: Ptr, e: Ptr)
    requires Good(next, head)
  {
    exists m: nat :: e == Iter(next, head, m) && OnCycle(next, head, m) && forall x: nat :: x < m ==>
        !OnCycle(next, head, x)
  }

  lemma {:induction false} NullStays(next: Links, head: Ptr, k: nat, n: nat)
    requires Good(next, head) && k <= n && Iter(next, head, k) == NULL
    ensures Iter(next, head, n) == NULL
  {
    if k < n {
      NullStays(next, head, k, n - 1);
    }
  }

  lemma {:induction false} ShiftEqual(next: Links, head: Ptr, a: nat, b: nat, x: nat)
    requires Good(next, head) && Iter(next, head, a) == Iter(next, head, b)
    ensures Iter(next, head, a + x) == Iter(next, head, b + x)
  {
    if x == 0 {
    } else {
      ShiftEqual(next, head, a, b, x - 1);
    }
  }

  /** Going round `n` times from any point after a repetition changes nothing. */
  lemma {:induction false} Rounds(next: Links, head: Ptr, m: nat, l: nat, x: nat, n: nat)
    requires Good(next, head) && Iter(next, head, m + l) == Iter(next, head, m) && m <= x
    ensures Iter(next, head, x + n * l) == Iter(next, head, x)
    decreases n
  {
    if n == 0 {
    } else {
      Rounds(next, head, m, l, x, n - 1);
      var y := x + (n - 1) * l;
      ShiftEqual(next, head, m + l, m, y - m);
      assert m + l + (y - m) == y + l == x + n * l;
    }
  }

  ghost predicate AllDistinct(next: Links, head: Ptr, n: nat)
    requires Good(next, head)
  {
    forall i: nat, j: nat :: i < j <= n ==> Iter(next, head, i) != Iter(next, head, j)
  }

  ghost function Visited(next: Links, head: Ptr, n: nat): set<Ptr>
    requires Good(next, head)
  {
    if n == 0 then {Iter(next, head, 0)} else Visited(next, head, n - 1) + {Iter(next, head, n)}
  }

  lemma {:induction false} VisitedMember(next: Links, head: Ptr, n: nat, x: Ptr)
    requires Good(next, head) && x in Visited(next, head, n)
    ensures exists k: nat :: k <= n && Iter(next, head, k) == x
  {
    if x != Iter(next, head, n) {
      VisitedMember(next, head, n - 1, x);
    }
  }

  lemma {:induction false} VisitedSize(next: Links, head: Ptr, n: nat)
    requires Good(next, head) && AllDistinct(next, head, n)
    ensures |Visited(next, head, n)| == n + 1
  {
    if n == 0 {
    } else {
      VisitedSize(next, head, n - 1);
      var x := Iter(next, head, n);
      assert x !in Visited(next, head, n - 1) by {
        if x in Visited(next, head, n - 1) {
          VisitedMember(next, head, n - 1, x);
        }
      }
    }
  }

  lemma SubsetSize(a: set<Ptr>, b: set<Ptr>)
    requires a <= b
    ensures |a| <= |b|
  {
    assert b == a + (b - a);
  }

  /** A structure without an end visits some node twice. */
  lemma Revisits(next: Links, head: Ptr) returns (a: nat, b: nat)
    requires Good(next, head) && Cyclic(next, head)
    ensures a < b && Iter(next, head, a) == Iter(next, head, b)
  {
    var n := |next.Keys|;
    if AllDistinct(next, head, n) {
      VisitedSize(next, head, n);
      forall x | x in Visited(next, head, n) ensures x in next.Keys {
        VisitedMember(next, head, n, x);
      }
      SubsetSize(Visited(next, head, n), next.Keys);
    }
    a, b :| a < b <= n && Iter(next, head, a) == Iter(next, head, b);
  }

  /** The first repeated step. */
  lemma {:induction false} FirstOnCycle(next: Links, head: Ptr, m: nat) returns (mu: nat)
    requires Good(next, head) && OnCycle(next, head, m)
    ensures mu <= m && OnCycle(next, head, mu) && forall x: nat :: x < mu ==> !OnCycle(next, head, x)
    decreases m
  {
    if x: nat :| x < m && OnCycle(next, head, x) {
      mu := FirstOnCycle(next, head, x);
    } else {
      mu := m;
    }
  }

  /** The two pointers meet: after some T >= 1 steps of the slow one, whether or not there is a cycle. */
  lemma Meeting(next: Links, head: Ptr) returns (T: nat)
    requires Good(next, head)
    ensures T >= 1 && Iter(next, head, T) == Iter(next, head, 2 * T)
  {
    if Cyclic(next, head) {
      var a, b := Revisits(next, head);
      var l := b - a;
      T := (a + 1) * l;
      assert T >= a + 1 by {
        assert (a + 1) * l >= (a + 1) * 1;
      }
      Rounds(next, head, a, l, T, a + 1);
    } else {
      var k: nat :| Iter(next, head, k) == NULL;
      T := k + 1;
      NullStays(next, head, k, T);
      NullStays(next, head, k, 2 * T);
    }
  }

  lemma FarEnough(k: nat, l: nat)
    requires l >= 1
    ensures k * l >= k
  {
  }

  /** A repeated node means that the end is never reached. */
  lemma {:induction false} RepeatIsCyclic(next: Links, head: Ptr, m: nat, n: nat)
    requires Good(next, head) && m < n && Iter(next, head, m) != NULL && Iter(next, head, m) == Iter(next, head, n)
    ensures Cyclic(next, head)
  {
    forall k: nat ensures Iter(next, head, k) != NULL {
      var l := n - m;
      Rounds(next, head, m, l, m, k);
      FarEnough(k, l);
      if Iter(next, head, k) == NULL {
        NullStays(next, head, k, m + k * l);
      }
    }
  }

  /** After the pointers met at step t, walking t further from the entry leads back to the entry. */
  lemma EntryReturns(next: Links, head: Ptr, mu: nat, t: nat)
    requires Good(next, head) && OnCycle(next, head, mu) && Iter(next, head, t) == Iter(next, head, 2 * t)
    ensures Iter(next, head, t + mu) == Iter(next, head, mu)
  {
    var n: nat :| n > mu && Iter(next, head, n) == Iter(next, head, mu);
    var l := n - mu;
    var y := mu + t * l;
    assert y >= t by {
      assert t * l >= t * 1;
    }
    Rounds(next, head, mu, l, mu, t);
    Rounds(next, head, mu, l, mu + t, t);
    ShiftEqual(next, head, t + t, t, y - t);
    assert t + t + (y - t) == mu + t + t * l;
    assert t + (y - t) == y;
  }

  /** Terminates on every finite structure; null exactly when there is no cycle, otherwise its first node. */
  method DetectCycle(next: Links, head: Ptr) returns (r: Ptr)
    requires Good(next, head)
    ensures r == NULL <==> !Cyclic(next, head)
    ensures r != NULL ==> Entry(next, head, r)
  {
    if head == NULL {
      assert Iter(next, head, 0) == NULL;
      return NULL;
    }
    ghost var T := Meeting(next, head);
    ghost var t := 0;
    var left, right := head, head;
    while right != NULL && next[right] != NULL
      invariant left == Iter(next, head, t) && right == Iter(next, head, 2 * t) && left != NULL
      invariant forall x: nat :: 1 <= x <= t ==> Iter(next, head, x) != Iter(next, head, 2 * x)
      invariant t < T
      decreases T - t
    {
      assert Iter(next, head, 2 * t + 1) == next[right];
      assert Iter(next, head, t + 1) != NULL by {
        if Iter(next, head, t + 1) == NULL {
          NullStays(next, head, t + 1, 2 * t + 1);
        }
      }
      left := next[left];
      right := next[next[right]];
      t := t + 1;
      assert Iter(next, head, 2 * t) == right;
      if left == right {
        break;
      }
    }
    if right == NULL || next[right] == NULL {
      assert Iter(next, head, 2 * t + 1) == NULL;
      return NULL;
    }
    RepeatIsCyclic(next, head, t, 2 * t);
    ghost var mu := FirstOnCycle(next, head, t);
    EntryReturns(next, head, mu, t);
    right := head;
    ghost var s := 0;
    while right != left
      invariant s <= mu && right == Iter(next, head, s) && left == Iter(next, head, t + s)
      decreases mu - s
    {
      left := next[left];
      right := next[right];
      s := s + 1;
    }
    assert OnCycle(next, head, s);
    return left;
  }
}
