/** Byte order on keys, and buckets read through a cursor.

    Keys are strings compared code point by code point; for UTF-8 text this is
    the order of the encoded bytes, the order in which bbolt keeps its keys. */
module Lex {

  datatype Option<+T> = None | Some(value: T)

  /** `a` comes strictly before `b`. */
  predicate Less(a: string, b: string) {
    |b| > 0 && (|a| == 0 || a[0] < b[0] || (a[0] == b[0] && Less(a[1..], b[1..])))
  }

  predicate HasPrefix(s: string, p: string) {
    |p| <= |s| && s[..|p|] == p
  }

  predicate NulFree(name: string) {
    '\0' !in name
  }

  lemma {:induction false} Irreflexive(a: string)
    ensures !Less(a, a)
  {
    if a != "" { Irreflexive(a[1..]); }
  }

  lemma {:induction false} Total(a: string, b: string)
    ensures a == b || Less(a, b) || Less(b, a)
  {
    if a != "" && b != "" && a[0] == b[0] {
      Total(a[1..], b[1..]);
      assert a == [a[0]] + a[1..] && b == [b[0]] + b[1..];
    }
  }

  lemma {:induction false} Transitive(a: string, b: string, c: string)
    requires Less(a, b) && Less(b, c)
    ensures Less(a, c)
  {
    if a != "" && a[0] == b[0] == c[0] {
      Transitive(a[1..], b[1..], c[1..]);
    }
  }

  lemma Asymmetric(a: string, b: string)
    requires Less(a, b)
    ensures a != b && !Less(b, a)
  {
    Irreflexive(a);
    if Less(b, a) { Transitive(a, b, a); }
  }

  /** With heads of one length, the heads decide and the tails break ties. */
  lemma {:induction false} Concat(p: string, x: string, q: string, y: string)
    requires |p| == |q|
    ensures Less(p + x, q + y) <==> Less(p, q) || (p == q && Less(x, y))
  {
    if p == "" {
      assert p + x == x && q + y == y;
    } else {
      assert (p + x)[1..] == p[1..] + x && (q + y)[1..] == q[1..] + y;
      Concat(p[1..], x, q[1..], y);
      assert p == [p[0]] + p[1..] && q == [q[0]] + q[1..];
    }
  }

  /** The keys with a given prefix are the first ones at or after that prefix. */
  lemma {:induction false} PrefixRange(p: string, k: string, last: string)
    requires k == p || Less(p, k)
    requires k == last || Less(k, last)
    requires HasPrefix(last, p)
    ensures HasPrefix(k, p)
  {
    if p != "" && k != p && k != last {
      assert p[0] == last[0] by { assert last[..|p|][0] == p[0]; }
      assert k[0] == p[0];
      assert last[1..][..|p[1..]|] == p[1..] by {
        assert last[..|p|][1..] == p[1..];
      }
      PrefixRange(p[1..], k[1..], last[1..]);
      assert k == [k[0]] + k[1..] && p == [p[0]] + p[1..];
      assert k[..|p|] == [k[0]] + k[1..][..|p[1..]|];
    }
  }

  lemma {:induction false} PrefixNotLess(s: string, p: string)
    requires HasPrefix(s, p)
    ensures s == p || Less(p, s)
  {
    if p != "" {
      assert s[0] == p[0] by { assert s[..|p|][0] == p[0]; }
      assert s[1..][..|p[1..]|] == p[1..] by { assert s[..|p|][1..] == p[1..]; }
      PrefixNotLess(s[1..], p[1..]);
      assert s == [s[0]] + s[1..] && p == [p[0]] + p[1..];
    }
  }

  predicate Least(k: string, keys: set<string>) {
    k in keys && forall o :: o in keys ==> o == k || Less(k, o)
  }

  lemma {:induction false} LeastExists(keys: set<string>)
    requires keys != {}
    ensures exists k :: Least(k, keys)
    decreases |keys|
  {
    var x :| x in keys;
    var rest := keys - {x};
    if rest == {} {
      assert keys == {x};
      assert Least(x, keys);
    } else {
      LeastExists(rest);
      var k :| Least(k, rest);
      Total(x, k);
      if Less(x, k) {
        forall o | o in keys ensures o == x || Less(x, o) {
          if o != x && o != k { Transitive(x, k, o); }
        }
        assert Least(x, keys);
      } else {
        assert Least(k, keys);
      }
    }
  }

  lemma LeastUnique(k: string, l: string, keys: set<string>)
    requires Least(k, keys) && Least(l, keys)
    ensures k == l
  {
    if k != l { Asymmetric(k, l); }
  }

  /** The smallest key: what `Cursor.First` stops at. */
  function First(keys: set<string>): (k: string)
    requires keys != {}
    ensures Least(k, keys)
  {
    LeastExists(keys);
    assert forall k, l | Least(k, keys) && Least(l, keys) :: k == l by {
      forall k, l | Least(k, keys) && Least(l, keys) ensures k == l { LeastUnique(k, l, keys); }
    }
    var k :| k in keys && Least(k, keys);
    k
  }

  ghost predicate Ascending(s: seq<string>) {
    forall i, j :: 0 <= i < j < |s| ==> Less(s[i], s[j])
  }

  /** The keys in the order in which `Cursor.First` and `Next` visit them. */
  function Walk(keys: set<string>): seq<string>
    decreases |keys|
  {
    if keys == {} then [] else [First(keys)] + Walk(keys - {First(keys)})
  }

  lemma {:induction false} WalkVisits(keys: set<string>)
    ensures Ascending(Walk(keys))
    ensures forall k :: k in Walk(keys) <==> k in keys
    decreases |keys|
  {
    if keys != {} {
      var k := First(keys);
      WalkVisits(keys - {k});
      var rest := Walk(keys - {k});
      assert forall j :: 0 <= j < |rest| ==> rest[j] in rest;
    }
  }

  /** `Cursor.Seek`: the smallest key at or after `p`. */
  function Seek(keys: set<string>, p: string): (r: Option<string>)
    ensures r.None? <==> forall k :: k in keys ==> k != p && !Less(p, k)
    ensures r.Some? ==> Least(r.value, set k | k in keys && (k == p || Less(p, k)))
  {
    var rest := set k | k in keys && (k == p || Less(p, k));
    if rest == {} then assert forall k :: k in keys ==> k !in rest; None else Some(First(rest))
  }

  /** One Seek answers whether any key carries the prefix. */
  lemma SeekDecidesPrefix(keys: set<string>, p: string)
    ensures (Seek(keys, p).Some? && HasPrefix(Seek(keys, p).value, p)) <==> exists k :: k in keys && HasPrefix(k, p)
  {
    var r := Seek(keys, p);
    if k :| k in keys && HasPrefix(k, p) {
      PrefixNotLess(k, p);
      PrefixRange(p, r.value, k);
    }
  }
}
