/** The order `Option::cmp` puts on window names: no name first, then names
    compared as strings. Rust compares `String`s by their UTF-8 bytes, which
    orders them exactly as lexicographic order on code points does. */
module NameOrder {
  import opened Types

  /** Lexicographic `a <= b` on strings. */
  predicate StrLe(a: string, b: string) {
    |a| == 0 || (|b| > 0 && (a[0] < b[0] || (a[0] == b[0] && StrLe(a[1..], b[1..]))))
  }

  /** `a <= b` for optional names: `None` below every `Some`. */
  predicate NameLe(a: Option<string>, b: Option<string>) {
    match a
    case None => true
    case Some(x) => b.Some? && StrLe(x, b.value)
  }

  /** Where two strings first differ, or the length of the shorter one when
      one is a prefix of the other. */
  function Mismatch(a: string, b: string): (k: nat)
    ensures k <= |a| && k <= |b| && a[..k] == b[..k]
    ensures k < |a| && k < |b| ==> a[k] != b[k]
  {
    if a == [] || b == [] || a[0] != b[0] then 0
    else
      var k := Mismatch(a[1..], b[1..]);
      assert a[..k + 1] == [a[0]] + a[1..][..k];
      assert b[..k + 1] == [b[0]] + b[1..][..k];
      k + 1
  }

  /** `StrLe` is lexicographic order: `a` is a prefix of `b`, or at the first
      position where they differ `a` carries the smaller character. */
  lemma {:induction false} StrLeIsLexicographic(a: string, b: string)
    ensures StrLe(a, b) <==>
      (Mismatch(a, b) == |a| || (Mismatch(a, b) < |b| && a[Mismatch(a, b)] < b[Mismatch(a, b)]))
  {
    if a != [] && b != [] && a[0] == b[0] {
      StrLeIsLexicographic(a[1..], b[1..]);
    }
  }

  lemma {:induction false} StrLeReflexive(a: string)
    ensures StrLe(a, a)
  {
    if a != [] { StrLeReflexive(a[1..]); }
  }

  lemma {:induction false} StrLeTotal(a: string, b: string)
    ensures StrLe(a, b) || StrLe(b, a)
  {
    if a != [] && b != [] && a[0] == b[0] { StrLeTotal(a[1..], b[1..]); }
  }

  lemma {:induction false} StrLeAntisymmetric(a: string, b: string)
    requires StrLe(a, b) && StrLe(b, a)
    ensures a == b
  {
    if a != [] && b != [] {
      StrLeAntisymmetric(a[1..], b[1..]);
      assert a == [a[0]] + a[1..] && b == [b[0]] + b[1..];
    }
  }

  lemma {:induction false} StrLeTransitive(a: string, b: string, c: string)
    requires StrLe(a, b) && StrLe(b, c)
    ensures StrLe(a, c)
  {
    if a != [] && b != [] && c != [] && a[0] == b[0] == c[0] {
      StrLeTransitive(a[1..], b[1..], c[1..]);
    }
  }

  /** The name order is a total order, as Rust's `Ord` for `Option<String>` is. */
  lemma NameLeTotalOrder(a: Option<string>, b: Option<string>, c: Option<string>)
    ensures NameLe(a, a)
    ensures NameLe(a, b) || NameLe(b, a)
    ensures NameLe(a, b) && NameLe(b, a) ==> a == b
    ensures NameLe(a, b) && NameLe(b, c) ==> NameLe(a, c)
  {
    if a.Some? {
      StrLeReflexive(a.value);
      if b.Some? {
        StrLeTotal(a.value, b.value);
        if StrLe(a.value, b.value) && StrLe(b.value, a.value) {
          StrLeAntisymmetric(a.value, b.value);
        }
        if c.Some? && StrLe(a.value, b.value) && StrLe(b.value, c.value) {
          StrLeTransitive(a.value, b.value, c.value);
        }
      }
    }
  }
}
