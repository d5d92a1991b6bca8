/** Sequence operations shared by the linked lists and by the abstract cache. */
module Lists {

  ghost predicate Distinct<T>(s: seq<T>) {
    forall i, j :: 0 <= i < j < |s| ==> s[i] != s[j]
  }

  /** s without its element at index i. */
  function Without<T>(s: seq<T>, i: int): (r: seq<T>)
    requires 0 <= i < |s|
    ensures |r| == |s| - 1
  {
    s[..i] + s[i + 1..]
  }

  /** s with its element at index i moved to the front. */
  function ToFront<T>(s: seq<T>, i: int): (r: seq<T>)
    requires 0 <= i < |s|
    ensures |r| == |s|
  {
    [s[i]] + Without(s, i)
  }

  function Reverse<T>(s: seq<T>): (r: seq<T>)
    ensures |r| == |s|
    ensures forall i :: 0 <= i < |s| ==> r[i] == s[|s| - 1 - i]
  {
    if s == [] then [] else Reverse(s[1..]) + [s[0]]
  }

  lemma {:induction false} ReverseSnoc<T>(s: seq<T>, x: T)
    ensures Reverse(s + [x]) == [x] + Reverse(s)
  {
    if s != [] {
      assert (s + [x])[1..] == s[1..] + [x];
      ReverseSnoc(s[1..], x);
    }
  }

  /** One element of a list without repetition moves over to the reversed front part. */
  lemma ReverseStep<T>(s: seq<T>, i: nat)
    requires i < |s| && Distinct(s)
    ensures s[i] !in Reverse(s[..i]) && s[i] !in s[i + 1..]
    ensures Reverse(s[..i + 1]) == [s[i]] + Reverse(s[..i])
  {
    assert s[..i + 1] == s[..i] + [s[i]];
    ReverseSnoc(s[..i], s[i]);
  }

  lemma WithoutMembers<T(!new)>(s: seq<T>, p: nat)
    requires Distinct(s) && p < |s|
    ensures Distinct(Without(s, p)) && s[p] !in Without(s, p)
    ensures forall x :: x in Without(s, p) ==> x in s
    ensures forall x :: x in s && x != s[p] ==> x in Without(s, p)
    ensures forall i :: 0 <= i < |s| - 1 ==> Without(s, p)[i] == s[if i < p then i else i + 1]
  {
    var r := Without(s, p);
    assert forall i :: 0 <= i < |s| && i != p ==> s[i] == r[if i < p then i else i - 1];
  }
}
