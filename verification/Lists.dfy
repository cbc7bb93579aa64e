/** Taking an element out of a list. */
module Lists {

  /** `g_list_remove`: the list without the first occurrence of x. */
  function Without<T(==)>(s: seq<T>, x: T): (r: seq<T>)
    ensures forall y :: y in r ==> y in s
    ensures x !in s ==> r == s
  {
    if s == [] then [] else if s[0] == x then s[1..] else [s[0]] + Without(s[1..], x)
  }

  lemma {:induction false} WithoutOthers<T>(s: seq<T>, x: T)
    ensures forall y :: y != x ==> (y in Without(s, x) <==> y in s)
    ensures forall y :: y in Without(s, x) ==> y in s
    ensures x !in s ==> Without(s, x) == s
  {
    if s == [] {
    } else {
      WithoutOthers(s[1..], x);
      assert s == [s[0]] + s[1..];
    }
  }

  lemma WithoutFirst<T>(x: T, s: seq<T>)
    ensures Without([x] + s, x) == s
  {
  }

  lemma WithoutAt<T>(s: seq<T>, x: T, i: nat)
    requires i < |s| && s[i] == x && x !in s[..i]
    ensures Without(s, x) == s[..i] + s[i + 1..]
    decreases i
  {
    if i == 0 {
    } else {
      assert s[0] in s[..i];
      assert s[1..][..i - 1] == s[..i][1..];
      WithoutAt(s[1..], x, i - 1);
    }
  }

  method RemoveFirst<T(==)>(list: seq<T>, x: T) returns (r: seq<T>)
    ensures r == Without(list, x)
  {
    var i := 0;
    while i < |list| && list[i] != x
      invariant 0 <= i <= |list| && x !in list[..i]
    {
      i := i + 1;
    }
    if i == |list| {
      assert list[..i] == list;
      return list;
    }
    WithoutAt(list, x, i);
    return list[..i] + list[i + 1..];
  }

  lemma {:induction false} WithoutFacts<T>(list: seq<T>, x: T)
    requires forall i, j :: 0 <= i < j < |list| ==> list[i] != list[j]
    ensures var r := Without(list, x);
            (forall i, j :: 0 <= i < j < |r| ==> r[i] != r[j]) &&
            (forall i :: 0 <= i < |r| ==> r[i] in list && r[i] != x) &&
            (forall i :: 0 <= i < |list| && list[i] != x ==> list[i] in r)
    decreases |list|
  {
    if list == [] {
    } else {
      var rest, r := list[1..], Without(list, x);
      WithoutFacts(rest, x);
      assert forall i :: 0 < i < |list| ==> list[i] == rest[i - 1];
      if list[0] != x {
        var r' := Without(rest, x);
        assert forall i :: 0 < i < |r| ==> r[i] == r'[i - 1];
        assert r[0] == list[0];
        forall i | 0 < i < |r| ensures r[i] in list && r[i] != x && r[i] != r[0] {
          assert r'[i - 1] in rest;
        }
        forall i | 0 < i < |list| && list[i] != x ensures list[i] in r {
          assert rest[i - 1] in r';
        }
      }
    }
  }
}
