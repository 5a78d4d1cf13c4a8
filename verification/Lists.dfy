/** Edits of ordered child lists (`insertBefore`, `appendChild`, `remove`) and the two
    searches the table operations run over a row's cells or the body's rows: the last
    child matching a test (a `reduce` that overwrites its accumulator) and the first one
    (`Array.prototype.find`). */
module Lists {
  import opened JsValues

  /** `parent.insertBefore(x, s[i])`, or `appendChild(x)` for `i == |s|`. */
  function InsertAt<T>(s: seq<T>, i: nat, x: T): (r: seq<T>)
    requires i <= |s|
    ensures |r| == |s| + 1
    ensures r[i] == x && r[..i] == s[..i] && r[i + 1..] == s[i..]
  {
    assert s == s[..i] + s[i..];
    s[..i] + [x] + s[i..]
  }

  /** Taking the inserted element out again gives the list back. */
  lemma InsertAtRemoved<T>(s: seq<T>, i: nat, x: T)
    requires i <= |s|
    ensures var r := InsertAt(s, i, x); r[..i] + r[i + 1..] == s
  {
    assert s == s[..i] + s[i..];
  }

  /** `s[i].remove()` */
  function RemoveAt<T>(s: seq<T>, i: nat): (r: seq<T>)
    requires i < |s|
    ensures |r| == |s| - 1
    ensures r[..i] == s[..i] && r[i..] == s[i + 1..]
  {
    s[..i] + s[i + 1..]
  }

  /** Where `insertBefore(x, ref)` puts `x`: before the child at `ref`, or at the end when
      there is no reference. */
  function InsertBefore<T>(s: seq<T>, ref: Option<nat>, x: T): (r: seq<T>)
    requires ref.Some? ==> ref.value < |s|
    ensures ref.Some? ==> r == InsertAt(s, ref.value, x)
    ensures ref.None? ==> r == s + [x]
  {
    if ref.Some? then InsertAt(s, ref.value, x) else InsertAt(s, |s|, x)
  }

  /** `s.reduce((ref, e) => p(e) ? e : ref, null)`: the position of the last match. */
  function LastWhere<T>(s: seq<T>, p: T -> bool): (r: Option<nat>)
    ensures r.Some? ==> r.value < |s| && p(s[r.value]) && forall j :: r.value < j < |s| ==> !p(s[j])
    ensures r.None? ==> forall j :: 0 <= j < |s| ==> !p(s[j])
  {
    if |s| == 0 then None
    else if p(s[|s| - 1]) then Some(|s| - 1)
    else LastWhere(s[..|s| - 1], p)
  }

  /** `s.find(p)`: the position of the first match. */
  function FirstWhere<T>(s: seq<T>, p: T -> bool): (r: Option<nat>)
    ensures r.Some? ==> r.value < |s| && p(s[r.value]) && forall j :: 0 <= j < r.value ==> !p(s[j])
    ensures r.None? ==> forall j :: 0 <= j < |s| ==> !p(s[j])
  {
    if |s| == 0 then None
    else if p(s[0]) then Some(0)
    else
      var r := FirstWhere(s[1..], p);
      if r.Some? then Some(r.value + 1) else None
  }

  /** How many elements pass `p` (the length of a `filter`). The contract only bounds it;
      `WhereMeaning` shows it counts exactly the matching positions. */
  function Count<T>(s: seq<T>, p: T -> bool): (n: nat)
    ensures n <= |s|
  {
    if |s| == 0 then 0
    else Count(s[..|s| - 1], p) + (if p(s[|s| - 1]) then 1 else 0)
  }

  /** `s.filter(p)`. The contract gives the length and that only matches are kept;
      `FilterMeaning` shows that every match is kept, in order. */
  function Filter<T>(s: seq<T>, p: T -> bool): (r: seq<T>)
    ensures |r| == Count(s, p)
    ensures forall x :: x in r ==> x in s && p(x)
  {
    if |s| == 0 then []
    else Filter(s[..|s| - 1], p) + (if p(s[|s| - 1]) then [s[|s| - 1]] else [])
  }

  /** The positions of the elements that pass `p`, in order. */
  function Where<T>(s: seq<T>, p: T -> bool): (ks: seq<nat>)
    ensures |ks| == Count(s, p)
    ensures forall i :: 0 <= i < |ks| ==> ks[i] < |s| && p(s[ks[i]])
  {
    if |s| == 0 then []
    else Where(s[..|s| - 1], p) + (if p(s[|s| - 1]) then [|s| - 1] else [])
  }

  /** `Where` lists every passing position and nothing else, strictly increasing; so
      `Count` is the number of positions whose element passes. */
  lemma {:induction false} WhereMeaning<T>(s: seq<T>, p: T -> bool)
    ensures var ks := Where(s, p);
      && (forall i, j :: 0 <= i < j < |ks| ==> ks[i] < ks[j])
      && (forall j: nat :: j in ks <==> j < |s| && p(s[j]))
  {
    if |s| > 0 {
      var s' := s[..|s| - 1];
      WhereMeaning(s', p);
      forall j: nat | j < |s'|
        ensures p(s'[j]) == p(s[j])
      {
      }
    }
  }

  /** `filter` keeps exactly the passing elements, in their order: its i-th element is the
      one at the i-th passing position. */
  lemma {:induction false} FilterMeaning<T>(s: seq<T>, p: T -> bool)
    ensures |Filter(s, p)| == |Where(s, p)|
    ensures forall i :: 0 <= i < |Filter(s, p)| ==> Filter(s, p)[i] == s[Where(s, p)[i]]
  {
    if |s| > 0 {
      var s' := s[..|s| - 1];
      FilterMeaning(s', p);
      var f, w := Filter(s, p), Where(s, p);
      forall i | 0 <= i < |f|
        ensures f[i] == s[w[i]]
      {
        if i < |Filter(s', p)| {
          assert f[i] == Filter(s', p)[i] && w[i] == Where(s', p)[i];
          assert s'[w[i]] == s[w[i]];
        }
      }
    }
  }

  /** `filter` distributes over concatenation. */
  lemma {:induction false} FilterConcat<T>(a: seq<T>, b: seq<T>, p: T -> bool)
    ensures Filter(a + b, p) == Filter(a, p) + Filter(b, p)
  {
    if |b| == 0 {
      assert a + b == a;
    } else {
      FilterConcat(a, b[..|b| - 1], p);
      assert (a + b)[..|a + b| - 1] == a + b[..|b| - 1];
      assert [b[|b| - 1]][..0] == [];
    }
  }

  /** All elements of all lists, in order (`descendants` over two levels). */
  function Flatten<T>(s: seq<seq<T>>): seq<T> {
    if |s| == 0 then [] else Flatten(s[..|s| - 1]) + s[|s| - 1]
  }
}
