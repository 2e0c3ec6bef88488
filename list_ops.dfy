/** The shape of a Python list while a loop walks a copy of it and edits the
    original: the part already visited (`done`), followed by the untouched
    rest of the copy. The game never lists an object twice, so
    `list.remove(x)` on the element being visited deletes exactly the
    position that element occupies; these lemmas describe that position. */
module ListOps {

  /** The element at the boundary is the next one of the copy, and writing
      `m` there gives `done`, then `m`, then the rest of the copy. */
  lemma WriteAtBoundary<T>(done: seq<T>, s: seq<T>, t: nat, m: T)
    requires t < |s|
    ensures (done + s[t..])[|done|] == s[t]
    ensures (done + s[t..])[|done| := m] == done + [m] + s[t + 1..]
  {
    var l := done + s[t..];
    assert l[|done|] == s[t..][0];
    var w := l[|done| := m];
    assert |w| == |done + [m] + s[t + 1..]|;
    forall k | 0 <= k < |w|
      ensures w[k] == (done + [m] + s[t + 1..])[k]
    {
      if k > |done| {
        assert w[k] == s[t..][k - |done|] == s[t + (k - |done|)];
      }
    }
  }

  /** Deleting the position right after `done` (`list.remove` of the element
      there) leaves `done` followed by the rest. */
  lemma DeleteAtBoundary<T>(done: seq<T>, m: T, rest: seq<T>)
    ensures var l := done + [m] + rest; l[..|done|] + l[|done| + 1..] == done + rest
  {
    var l := done + [m] + rest;
    assert l[..|done|] == done;
    assert l[|done| + 1..] == rest;
  }

  /** The prefix one element longer ends with that element: what a fold
      over prefixes unfolds to after one more iteration. */
  lemma PrefixStep<T>(s: seq<T>, t: nat)
    requires t < |s|
    ensures s[..t + 1][..t] == s[..t] && s[..t + 1][t] == s[t]
  {
  }

  /** A copy walked to its end leaves only the visited part; a copy walked
      from its start is the whole list. */
  lemma Ends<T, U>(done: seq<T>, s: seq<T>, u: seq<U>)
    ensures done + s[|s|..] == done && u[..0] == [] && u[..|u|] == u && s[0..] == s
  {
  }
}
