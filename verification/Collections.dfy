/** Small notions used throughout. */
module Collections {
  datatype Option<T> = None | Some(value: T)

  function InsertAt<T>(s: seq<T>, x: nat, e: T): (r: seq<T>)
    requires x <= |s|
    ensures |r| == |s| + 1 && r[x] == e
    ensures forall y :: 0 <= y < x ==> r[y] == s[y]
    ensures forall y :: x < y < |r| ==> r[y] == s[y - 1]
  {
    s[..x] + [e] + s[x..]
  }

  function RemoveAt<T>(s: seq<T>, x: nat): (r: seq<T>)
    requires x < |s|
    ensures |r| == |s| - 1
    ensures forall y :: 0 <= y < x ==> r[y] == s[y]
    ensures forall y :: x <= y < |r| ==> r[y] == s[y + 1]
  {
    s[..x] + s[x + 1..]
  }

  /** There is always a number that is not used. */
  lemma {:induction false} FreeNumber(used: set<nat>) returns (b: nat)
    ensures b != 0 && forall a :: a in used ==> a < b
  {
    b := 1;
    if used != {} {
      var x :| x in used;
      var c := FreeNumber(used - {x});
      b := if x < c then c else x + 1;
      forall a | a in used ensures a < b { if a != x { assert a in used - {x}; } }
    }
  }

  lemma Any<T>(s: set<T>) returns (x: T)
    requires s != {}
    ensures x in s
  {
    x :| x in s;
  }
}
