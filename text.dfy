/**
 * Text operations the selection pipeline relies on: lowercasing, substring
 * search and the ordering of titles.
 *
 * Lowercasing is ASCII only: Rust's `to_lowercase` is full Unicode, and the
 * two agree on ASCII titles.  Titles are ordered by code point, which is how
 * Rust orders `String`s (byte-wise UTF-8 order equals code-point order).
 */
module Text {

  function LowerChar(c: char): char {
    if 'A' <= c <= 'Z' then (c as int + ('a' as int - 'A' as int)) as char else c
  }

  predicate IsUpper(c: char) {
    'A' <= c <= 'Z'
  }

  /** The lowercase form of `s`: each character lowered on its own. */
  function Lower(s: string): string {
    seq(|s|, i requires 0 <= i < |s| => LowerChar(s[i]))
  }

  /** No ASCII capital survives lowering. */
  lemma LowerHasNoUpper(s: string)
    ensures forall i :: 0 <= i < |Lower(s)| ==> !IsUpper(Lower(s)[i])
  {
  }

  /** Lowering twice is lowering once. */
  lemma LowerIdempotent(s: string)
    ensures Lower(Lower(s)) == Lower(s)
  {
    var l := Lower(s);
    assert forall i :: 0 <= i < |l| ==> LowerChar(l[i]) == l[i];
  }

  /** `q` occurs in `t` starting at some position (Rust's `str::contains`). */
  predicate Contains(t: string, q: string) {
    q <= t || (t != [] && Contains(t[1..], q))
  }

  /** `q` is the window of `t` that starts at position `i`. */
  predicate OccursAt(t: string, q: string, i: int) {
    0 <= i <= |t| - |q| && t[i..i + |q|] == q
  }

  /** The recursive search agrees with "some window of `t` equals `q`". */
  lemma {:induction false} ContainsIff(t: string, q: string)
    ensures Contains(t, q) <==> exists i :: OccursAt(t, q, i)
  {
    if q <= t {
      assert OccursAt(t, q, 0);
    } else if t == [] {
    } else {
      ContainsIff(t[1..], q);
      if exists i :: OccursAt(t, q, i) {
        var i :| OccursAt(t, q, i);
        assert i != 0;
        assert t[1..][i - 1..i - 1 + |q|] == t[i..i + |q|];
        assert OccursAt(t[1..], q, i - 1);
      }
      if Contains(t[1..], q) {
        var i :| OccursAt(t[1..], q, i);
        assert t[i + 1..i + 1 + |q|] == t[1..][i..i + |q|];
        assert OccursAt(t, q, i + 1);
      }
    }
  }

  /** The empty query occurs in every title. */
  lemma ContainsEmpty(t: string)
    ensures Contains(t, [])
  {
  }

  /** Lexicographic order on titles, by code point; a prefix comes first. */
  predicate TitleLe(a: string, b: string) {
    if a == [] then true
    else if b == [] then false
    else if a[0] != b[0] then a[0] < b[0]
    else TitleLe(a[1..], b[1..])
  }

  lemma {:induction false} TitleLeTotal(a: string, b: string)
    ensures TitleLe(a, b) || TitleLe(b, a)
  {
    if a != [] && b != [] && a[0] == b[0] {
      TitleLeTotal(a[1..], b[1..]);
    }
  }

  lemma {:induction false} TitleLeAntisymmetric(a: string, b: string)
    requires TitleLe(a, b) && TitleLe(b, a)
    ensures a == b
  {
    if a != [] && b != [] {
      TitleLeAntisymmetric(a[1..], b[1..]);
      assert a == [a[0]] + a[1..];
      assert b == [b[0]] + b[1..];
    }
  }

  lemma {:induction false} TitleLeTransitive(a: string, b: string, c: string)
    requires TitleLe(a, b) && TitleLe(b, c)
    ensures TitleLe(a, c)
  {
    if a != [] && b != [] && c != [] && a[0] == b[0] && b[0] == c[0] {
      TitleLeTransitive(a[1..], b[1..], c[1..]);
    }
  }
}
