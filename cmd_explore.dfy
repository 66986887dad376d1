/**
 * The ll_explore command's handling of its objective list
 * (src/cmd_explore.cpp): duplicates are erased in place, keeping the first
 * occurrence of each objective, and fewer than two distinct objectives is
 * an error. The objectives are any values compared with ==.
 */
module ExploreCommand {
  import opened Common

  /** The objectives with every repetition of an earlier one removed. */
  function Dedup<T(==)>(s: seq<T>): seq<T>
  {
    if s == [] then []
    else
      var d := Dedup(s[..|s| - 1]);
      if s[|s| - 1] in d then d else d + [s[|s| - 1]]
  }

  function Elements<T>(s: seq<T>): set<T>
  {
    set x | x in s
  }

  /** Nothing is lost and nothing is added: the kept objectives are exactly the given ones. */
  lemma {:induction false} DedupSameElements<T>(s: seq<T>)
    ensures Elements(Dedup(s)) == Elements(s)
  {
    if s != [] {
      var front := s[..|s| - 1];
      DedupSameElements(front);
      assert s == front + [s[|s| - 1]];
      assert Elements(s) == Elements(front) + {s[|s| - 1]};
    }
  }

  /** The kept objectives are pairwise different. */
  lemma {:induction false} DedupDistinct<T>(s: seq<T>)
    ensures forall i, j :: 0 <= i < j < |Dedup(s)| ==> Dedup(s)[i] != Dedup(s)[j]
  {
    if s != [] {
      DedupDistinct(s[..|s| - 1]);
    }
  }

  /** The position of the first occurrence of x in s. */
  function FirstIndex<T(==)>(s: seq<T>, x: T): (k: nat)
    requires x in s
    ensures k < |s| && s[k] == x && x !in s[..k]
  {
    if s[0] == x then 0 else assert s == [s[0]] + s[1..]; 1 + FirstIndex(s[1..], x)
  }

  /**
   * Each objective is kept at its first occurrence: the kept ones appear
   * in the order in which they first occur in the request.
   */
  lemma {:induction false} DedupFirstOccurrenceOrder<T>(s: seq<T>, i: nat, j: nat)
    requires i < j < |Dedup(s)|
    ensures Dedup(s)[i] in s && Dedup(s)[j] in s
    ensures FirstIndex(s, Dedup(s)[i]) < FirstIndex(s, Dedup(s)[j])
  {
    var front := s[..|s| - 1];
    var d := Dedup(front);
    var x := s[|s| - 1];
    DedupSameElements(front);
    assert s == front + [x];
    if j < |d| {
      DedupFirstOccurrenceOrder(front, i, j);
      FirstIndexPrefix(front, x, d[i]);
      FirstIndexPrefix(front, x, d[j]);
    } else {
      assert Dedup(s)[j] == x && x !in d;
      assert d[i] in Elements(front);
      FirstIndexPrefix(front, x, d[i]);
      assert x !in Elements(front);
    }
  }

  /** Appending to a sequence does not move the first occurrence of an element already in it. */
  lemma FirstIndexPrefix<T>(front: seq<T>, x: T, y: T)
    requires y in front
    ensures y in front + [x] && FirstIndex(front + [x], y) == FirstIndex(front, y)
  {
    var k := FirstIndex(front, y);
    assert (front + [x])[k] == y;
  }

  /**
   * The in-place de-duplication: for every position after the first, if an
   * earlier entry is equal the entry is erased, else the index moves on.
   */
  method Uniquify<T(==)>(objectives: seq<T>) returns (r: seq<T>)
    ensures r == Dedup(objectives)
  {
    r := objectives;
    if |objectives| == 0 {
      return;
    }
    var i := 1;
    ghost var n := 1;
    assert objectives[..1] == [objectives[0]];
    while i < |r|
      invariant 1 <= i <= |r| && 1 <= n <= |objectives|
      invariant r[..i] == Dedup(objectives[..n]) && r[i..] == objectives[n..]
      decreases |r| - i
    {
      var duplicate := false;
      for j := 0 to i
        invariant duplicate <==> r[i] in r[..j]
      {
        if r[i] == r[j] {
          duplicate := true;
        }
        assert r[..j + 1] == r[..j] + [r[j]];
      }
      assert r[i] == objectives[n];
      assert objectives[..n + 1] == objectives[..n] + [objectives[n]];
      if duplicate {
        r := r[..i] + r[i + 1..];
      } else {
        i := i + 1;
      }
      n := n + 1;
    }
    assert objectives[..|objectives|] == objectives;
  }

  const TooFewObjectivesMessage := "There should be at last two different objectives for multiobjective exploration."

  /**
   * The objective list ll_explore optimises: the de-duplicated request,
   * or an error when it holds fewer than two different objectives.
   */
  method PrepareObjectives<T(==)>(objectives: seq<T>) returns (r: Result<seq<T>>)
    ensures |Elements(objectives)| < 2 ==> r == Err(TooFewObjectivesMessage)
    ensures |Elements(objectives)| >= 2 ==> r == Ok(Dedup(objectives))
  {
    var unique := Uniquify(objectives);
    DedupCount(objectives);
    if |unique| < 2 {
      return Err(TooFewObjectivesMessage);
    }
    return Ok(unique);
  }

  /** The de-duplicated list has one entry per distinct objective. */
  lemma DedupCount<T>(s: seq<T>)
    ensures |Dedup(s)| == |Elements(s)|
  {
    DedupSameElements(s);
    DedupDistinct(s);
    DistinctCount(Dedup(s));
  }

  lemma {:induction false} DistinctCount<T>(s: seq<T>)
    requires forall i, j :: 0 <= i < j < |s| ==> s[i] != s[j]
    ensures |Elements(s)| == |s|
  {
    if s != [] {
      var front := s[..|s| - 1];
      DistinctCount(front);
      assert s == front + [s[|s| - 1]];
      assert Elements(s) == Elements(front) + {s[|s| - 1]};
      assert s[|s| - 1] !in Elements(front);
    }
  }
}
