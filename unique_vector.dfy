/** The "append unless already present" idiom WordleSolver uses for its three
    constraint vectors (std::find followed by push_back), on sequences. */
module UniqueVector {

  predicate NoDuplicates<T(==)>(s: seq<T>) {
    forall i, j :: 0 <= i < j < |s| ==> s[i] != s[j]
  }

  function Elems<T>(s: seq<T>): set<T> {
    set x | x in s
  }

  /** One add: the vector grows by `x` at the end exactly when `x` is new. */
  function Insert<T(==)>(v: seq<T>, x: T): (r: seq<T>)
    ensures Elems(r) == Elems(v) + {x}
    ensures x in v <==> r == v
    ensures |v| <= |r| && r[..|v|] == v
    ensures NoDuplicates(v) ==> NoDuplicates(r)
  {
    if x in v then v else v + [x]
  }

  /** Adding the elements of `xs` one after the other, in order. */
  function InsertAll<T(==)>(v: seq<T>, xs: seq<T>): seq<T>
  {
    if xs == [] then v else Insert(InsertAll(v, xs[..|xs| - 1]), xs[|xs| - 1])
  }

  lemma {:induction false} InsertAllProperties<T>(v: seq<T>, xs: seq<T>)
    ensures Elems(InsertAll(v, xs)) == Elems(v) + Elems(xs)
    ensures |v| <= |InsertAll(v, xs)| && InsertAll(v, xs)[..|v|] == v
    ensures NoDuplicates(v) ==> NoDuplicates(InsertAll(v, xs))
  {
    if xs != [] {
      var init := xs[..|xs| - 1];
      InsertAllProperties(v, init);
      assert xs == init + [xs[|xs| - 1]];
      assert Elems(xs) == Elems(init) + {xs[|xs| - 1]};
      var w := InsertAll(v, init);
      assert InsertAll(v, xs)[..|w|] == w;
      assert InsertAll(v, xs)[..|v|] == w[..|v|];
    }
  }

  /** Adding only elements that are already present changes nothing. */
  lemma {:induction false} InsertAllPresent<T>(v: seq<T>, xs: seq<T>)
    requires Elems(xs) <= Elems(v)
    ensures InsertAll(v, xs) == v
  {
    if xs != [] {
      var init := xs[..|xs| - 1];
      assert Elems(init) <= Elems(xs) by {
        forall x | x in Elems(init) ensures x in Elems(xs) {
          var k :| 0 <= k < |init| && init[k] == x;
          assert xs[k] == x;
        }
      }
      InsertAllPresent(v, init);
      assert xs[|xs| - 1] in Elems(xs);
    }
  }

  /** Applying the same adds a second time is a no-op. */
  lemma InsertAllIdempotent<T>(v: seq<T>, xs: seq<T>)
    ensures InsertAll(InsertAll(v, xs), xs) == InsertAll(v, xs)
  {
    InsertAllProperties(v, xs);
    InsertAllPresent(InsertAll(v, xs), xs);
  }

  /** The number of distinct elements is at most the length, with equality
      exactly when there are no duplicates. */
  lemma {:induction false} DistinctCount<T>(s: seq<T>)
    ensures |Elems(s)| <= |s|
    ensures |Elems(s)| == |s| <==> NoDuplicates(s)
  {
    if s != [] {
      var tail := s[1..];
      DistinctCount(tail);
      assert Elems(s) == {s[0]} + Elems(tail);
      if s[0] in tail {
        assert Elems(s) == Elems(tail);
        var k :| 0 <= k < |tail| && tail[k] == s[0];
        assert s[0] == s[k + 1];
      } else {
        assert s[0] !in Elems(tail);
        assert |Elems(s)| == |Elems(tail)| + 1;
        if NoDuplicates(s) {
          assert NoDuplicates(tail) by {
            forall i, j | 0 <= i < j < |tail| ensures tail[i] != tail[j] {
              assert s[i + 1] != s[j + 1];
            }
          }
        }
        if NoDuplicates(tail) {
          forall i, j | 0 <= i < j < |s| ensures s[i] != s[j] {
            if i == 0 {
              assert s[j] == tail[j - 1];
            } else {
              assert s[i] == tail[i - 1] && s[j] == tail[j - 1];
            }
          }
        }
      }
    }
  }
}
