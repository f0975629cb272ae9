/** Which parts of its one-cluster buffer `fat_read` copies out, turn by turn. */
module ReadPlan {
  import opened Words

  /** `size / S + ( size % S > 0 )`. */
  function Chunks(size: nat, s: nat): nat
    requires s > 0
  {
    size / s + if size % s > 0 then 1 else 0
  }

  lemma ChunksBound(size: nat, s: nat)
    requires s > 0 && size > 0
    ensures Chunks(size, s) >= 1 && s * (Chunks(size, s) - 1) < size <= s * Chunks(size, s)
  {
    var q, r := size / s, size % s;
    assert size == s * q + r;
    if r == 0 {
      assert s * (q - 1) == s * q - s;
    } else {
      assert s * (q + 1) == s * q + s;
    }
  }

  /** The read does not cross one cluster more than its length alone accounts for. */
  predicate NonStraddle(offset: nat, size: nat, s: nat)
    requires s > 0
  {
    size == 0 || offset + size <= s * Chunks(size, s)
  }

  /** In numbers: the end of the read does not pass its length rounded up to whole clusters. */
  lemma NonStraddleExactly(offset: nat, size: nat, s: nat)
    requires s > 0
    ensures NonStraddle(offset, size, s) <==> size == 0 || offset + size <= (size + s - 1) / s * s
    ensures Chunks(size, s) == (size + s - 1) / s
  {
    if size == 0 {
      assert (s - 1) / s == 0;
    } else {
      ChunksBound(size, s);
      var n := Chunks(size, s);
      assert size + s - 1 == (n - 1) * s + (size - 1 - s * (n - 1) + s);
      RoundUp(size, s, n);
    }
  }

  lemma RoundUp(size: nat, s: nat, n: nat)
    requires s > 0 && n >= 1 && s * (n - 1) < size <= s * n
    ensures (size + s - 1) / s == n && s * n == n * s
  {
    var r := size - 1 - s * (n - 1);
    assert s * n == s * (n - 1) + s;
    Quotient(size + s - 1, n, r, s);
  }

  /** The part of the one-cluster buffer each turn of `fat_read` copies out. */
  datatype Copy = Copy(from: nat, count: nat)

  /** The copies of a read of `size` bytes at `offset`, over `n` turns. */
  function Plan(offset: nat, size: nat, s: nat, n: nat): (cs: seq<Copy>)
    requires s > 0
    decreases n
  {
    if n == 0 then []
    else if n == 1 then [Copy(offset, size)]
    else
      var room := if offset < s then s - offset else 0;
      var count := if size < room then size else room;
      [Copy(offset, count)] + Plan((offset + count) % s, size - count, s, n - 1)
  }

  predicate StaysInside(cs: seq<Copy>, s: nat) {
    forall k :: 0 <= k < |cs| ==> cs[k].from + cs[k].count <= s
  }

  /** Every turn copies from inside the buffer exactly when the read does not straddle. */
  lemma PlanStaysInsideIff(offset: nat, size: nat, s: nat)
    requires s > 0 && offset <= s
    ensures StaysInside(Plan(offset, size, s, Chunks(size, s)), s) <==> NonStraddle(offset, size, s)
    ensures NonStraddle(offset, size, s) <==> size == 0 || offset + size <= (size + s - 1) / s * s
  {
    NonStraddleExactly(offset, size, s);
    if size > 0 {
      ChunksBound(size, s);
      PlanFrom(offset, size, s, Chunks(size, s));
    }
  }

  lemma {:induction false} PlanFrom(offset: nat, size: nat, s: nat, n: nat)
    requires s > 0 && offset <= s && n >= 1 && s * (n - 1) < size + offset
    ensures StaysInside(Plan(offset, size, s, n), s) <==> offset + size <= s * n
    decreases n
  {
    hide Plan, StaysInside;
    if n == 1 {
      PlanLast(offset, size, s);
    } else {
      Times(s, n);
      PlanFirst(offset, size, s, n);
      PlanFrom(0, size + offset - s, s, n - 1);
      InsideCons(Copy(offset, s - offset), Plan(0, size + offset - s, s, n - 1), s);
    }
  }

  lemma Times(s: nat, n: nat)
    requires n >= 2
    ensures s * n == s * (n - 1) + s && s * (n - 1) == s * (n - 2) + s && s * (n - 2) >= 0
  {
  }

  lemma PlanEmpty(offset: nat, size: nat, s: nat)
    requires s > 0
    ensures Plan(offset, size, s, 0) == []
  {
  }

  lemma PlanLast(offset: nat, size: nat, s: nat)
    requires s > 0
    ensures Plan(offset, size, s, 1) == [Copy(offset, size)]
    ensures StaysInside(Plan(offset, size, s, 1), s) <==> offset + size <= s
  {
    assert Plan(offset, size, s, 1)[0] == Copy(offset, size);
  }

  lemma PlanFirst(offset: nat, size: nat, s: nat, n: nat)
    requires s > 0 && offset <= s <= size + offset && n >= 2
    ensures Plan(offset, size, s, n) == [Copy(offset, s - offset)] + Plan(0, size + offset - s, s, n - 1)
  {
    assert s % s == 0;
  }

  lemma InsideCons(c: Copy, cs: seq<Copy>, s: nat)
    ensures StaysInside([c] + cs, s) <==> c.from + c.count <= s && StaysInside(cs, s)
  {
    var all := [c] + cs;
    assert all[0] == c;
    assert forall k :: 0 <= k < |cs| ==> all[k + 1] == cs[k];
  }

  /** A read that ends on a cluster boundary leaves the offset at the cluster size, from where no further
      non-empty read stays inside the buffer. */
  lemma BoundaryStops(size: nat, s: nat)
    requires s > 0 && size > 0
    ensures !NonStraddle(s, size, s)
  {
    ChunksBound(size, s);
    assert s * Chunks(size, s) == s * (Chunks(size, s) - 1) + s;
  }
}
