/** The key under which both servers file a conversation between two users:
    `[a, b].sort().join(sep)`. The `server.js` server joins with `::`, the
    in-memory one with `_`. */
module ChatKeys {
  import opened Protocol
  import opened JsCollections

  /** `a` and `b` agree on their first `i` code units, and position `i` is
      where `a` comes first: either `a` ends there and `b` goes on, or `a`'s
      code unit there is the smaller. */
  ghost predicate DecidedAt(a: JsString, b: JsString, i: int) {
    0 <= i <= |a| && i < |b| && a[..i] == b[..i] && (i == |a| || a[i] < b[i])
  }

  /** Where two non-empty strings start with different code units, that unit
      decides; where they start with the same one, the rest decides. */
  lemma DecidedAtStep(a: JsString, b: JsString)
    requires a != [] && b != []
    ensures a[0] != b[0] ==> ((exists i :: DecidedAt(a, b, i)) <==> a[0] < b[0])
    ensures a[0] == b[0] ==> ((exists i :: DecidedAt(a, b, i)) <==> (exists i :: DecidedAt(a[1..], b[1..], i)))
  {
    if a[0] != b[0] {
      if a[0] < b[0] {
        assert DecidedAt(a, b, 0);
      }
      assert forall i :: DecidedAt(a, b, i) ==> i == 0;
    } else {
      forall i | DecidedAt(a, b, i)
        ensures DecidedAt(a[1..], b[1..], i - 1)
      {
        assert i != 0;
        assert a[1..][..i - 1] == a[..i][1..];
        assert b[1..][..i - 1] == b[..i][1..];
      }
      forall i | DecidedAt(a[1..], b[1..], i)
        ensures DecidedAt(a, b, i + 1)
      {
        assert a[..i + 1] == [a[0]] + a[1..][..i];
        assert b[..i + 1] == [b[0]] + b[1..][..i];
      }
    }
  }

  /** JavaScript's `a < b` on strings: the first differing code unit decides,
      and a proper prefix comes before its extensions. */
  predicate Less(a: JsString, b: JsString): (r: bool)
    ensures r <==> exists i :: DecidedAt(a, b, i)
  {
    if b == [] then false
    else if a == [] then assert DecidedAt(a, b, 0); true
    else if a[0] != b[0] then DecidedAtStep(a, b); a[0] < b[0]
    else DecidedAtStep(a, b); Less(a[1..], b[1..])
  }

  lemma {:induction false} LessIrreflexive(a: JsString)
    ensures !Less(a, a)
  {
    if a != [] {
      LessIrreflexive(a[1..]);
    }
  }

  lemma {:induction false} LessAsymmetric(a: JsString, b: JsString)
    requires Less(a, b)
    ensures !Less(b, a)
  {
    if a != [] && b != [] && a[0] == b[0] {
      LessAsymmetric(a[1..], b[1..]);
    }
  }

  /** Two different strings are always ordered one way or the other. */
  lemma {:induction false} LessTotal(a: JsString, b: JsString)
    requires a != b
    ensures Less(a, b) || Less(b, a)
  {
    if a != [] && b != [] && a[0] == b[0] {
      assert a == [a[0]] + a[1..] && b == [b[0]] + b[1..];
      LessTotal(a[1..], b[1..]);
    }
  }

  lemma {:induction false} LessTransitive(a: JsString, b: JsString, c: JsString)
    requires Less(a, b) && Less(b, c)
    ensures Less(a, c)
  {
    if a != [] && a[0] == b[0] && b[0] == c[0] {
      LessTransitive(a[1..], b[1..], c[1..]);
    }
  }

  /** `[a, b].sort().join(sep)`. The default comparison of `sort` puts `b`
      first only when `b < a`; equal names keep their order. */
  function SortedJoin(a: JsString, b: JsString, sep: JsString): (key: JsString)
    ensures key == a + sep + b || key == b + sep + a
  {
    if Less(b, a) then b + sep + a else a + sep + b
  }

  /** The key does not depend on which of the two users asks. */
  lemma SortedJoinSymmetric(a: JsString, b: JsString, sep: JsString)
    ensures SortedJoin(a, b, sep) == SortedJoin(b, a, sep)
  {
    if a != b {
      LessTotal(a, b);
      if Less(a, b) {
        LessAsymmetric(a, b);
      } else {
        LessAsymmetric(b, a);
      }
    }
  }

  /** The key is the smaller name, the separator, then the larger name. */
  lemma SortedJoinSmallerFirst(a: JsString, b: JsString, sep: JsString)
    ensures var key := SortedJoin(a, b, sep);
      (key == a + sep + b && !Less(b, a)) || (key == b + sep + a && !Less(a, b))
  {
    if Less(b, a) {
      LessAsymmetric(b, a);
    }
  }

  /** Two joins with the same separator and the same key split the same way,
      provided the left parts do not contain the separator's first unit. */
  lemma SplitAtSeparator(x1: JsString, y1: JsString, x2: JsString, y2: JsString, sep: JsString)
    requires |sep| > 0 && sep[0] !in x1 && sep[0] !in x2
    requires x1 + sep + y1 == x2 + sep + y2
    ensures x1 == x2 && y1 == y2
  {
    var key := x1 + sep + y1;
    // Both left parts end where the separator first occurs in the key.
    var first := FindIndex(key, (u: CodeUnit) => u == sep[0]);
    assert key[|x1|] == sep[0] && forall j :: 0 <= j < |x1| ==> key[j] == x1[j];
    assert key[|x2|] == sep[0] && forall j :: 0 <= j < |x2| ==> key[j] == x2[j];
    assert first == |x1| && first == |x2|;
    assert x1 == key[..|x1|] == x2;
    assert y1 == key[|x1| + |sep|..] == y2;
  }

  /** Names that avoid the separator's first code unit give each unordered
      pair its own key. */
  lemma SortedJoinInjective(a: JsString, b: JsString, c: JsString, d: JsString, sep: JsString)
    requires |sep| > 0
    requires sep[0] !in a && sep[0] !in b && sep[0] !in c && sep[0] !in d
    requires SortedJoin(a, b, sep) == SortedJoin(c, d, sep)
    ensures (a == c && b == d) || (a == d && b == c)
  {
    var x1, y1 := if Less(b, a) then b else a, if Less(b, a) then a else b;
    var x2, y2 := if Less(d, c) then d else c, if Less(d, c) then c else d;
    SplitAtSeparator(x1, y1, x2, y2, sep);
  }

  /** Names that contain the separator can share a key with a different pair:
      the pair ("x" + sep + "y", "z") and the pair ("x", "y" + sep + "z") are
      given the same key. The in-memory server files and serves histories
      under that key, so there one user can read the other pair's
      conversation; `server.js` stores no history, so there the shared key
      has no visible effect. */
  lemma SortedJoinCollides(sep: JsString)
    ensures var x, y, z: JsString := [0x78], [0x79], [0x7A];
      && SortedJoin(x + sep + y, z, sep) == SortedJoin(x, y + sep + z, sep)
      && x + sep + y != x && x + sep + y != y + sep + z
  {
    var x, y, z: JsString := [0x78], [0x79], [0x7A];
    var a, d := x + sep + y, y + sep + z;
    assert a[0] == 0x78 && d[0] == 0x79;
    assert !Less(z, a);
    assert !Less(d, x);
    assert a + sep + z == x + sep + d;
  }

  /** `store.get(key) || []`: the conversation filed under `key`, or none. */
  function Conversation<M>(store: map<JsString, seq<M>>, key: JsString): (history: seq<M>)
    ensures key in store ==> history == store[key]
    ensures key !in store ==> history == []
  {
    if key in store then store[key] else []
  }
}
