/** Text handling the handlers rely on: Python's `str.strip()` applied to every
    username read from a form, and the order SQLite uses for `ORDER BY` on a TEXT
    column (the default BINARY collation, i.e. a byte-wise comparison of UTF-8,
    which is the same as comparing code points one by one). */
module Text {

  /** The characters for which Python's `str.isspace()` holds, by code point. */
  predicate IsSpace(c: char) {
    var n := c as int;
    (9 <= n <= 13) || (28 <= n <= 32) || n == 0x85 || n == 0xA0 || n == 0x1680
    || (0x2000 <= n <= 0x200A) || n == 0x2028 || n == 0x2029 || n == 0x202F
    || n == 0x205F || n == 0x3000
  }

  /** Length of the longest prefix of `s` made of white space. */
  function LeadingSpaces(s: string): (n: nat)
    ensures n <= |s|
    ensures forall k :: 0 <= k < n ==> IsSpace(s[k])
    ensures n < |s| ==> !IsSpace(s[n])
  {
    if s != [] && IsSpace(s[0]) then 1 + LeadingSpaces(s[1..]) else 0
  }

  /** Length of the longest suffix of `s` made of white space. */
  function TrailingSpaces(s: string): (n: nat)
    ensures n <= |s|
    ensures forall k :: |s| - n <= k < |s| ==> IsSpace(s[k])
    ensures n < |s| ==> !IsSpace(s[|s| - 1 - n])
  {
    if s != [] && IsSpace(s[|s| - 1]) then 1 + TrailingSpaces(s[..|s| - 1]) else 0
  }

  /** `str.strip()`: drop the white space at both ends and keep the rest as it is. */
  function Strip(s: string): (r: string)
    ensures |r| <= |s|
    ensures r == [] || (!IsSpace(r[0]) && !IsSpace(r[|r| - 1]))
    ensures LeadingSpaces(s) + |r| <= |s| && r == s[LeadingSpaces(s)..LeadingSpaces(s) + |r|]
    ensures forall k :: LeadingSpaces(s) + |r| <= k < |s| ==> IsSpace(s[k])
  {
    var t := s[LeadingSpaces(s)..];
    t[..|t| - TrailingSpaces(t)]
  }

  /** Only white space is dropped: every other character of `s` is still there. */
  lemma StripKeepsText(s: string)
    ensures forall k :: 0 <= k < |s| && !IsSpace(s[k]) ==> s[k] in Strip(s)
  {
    var i, r := LeadingSpaces(s), Strip(s);
    forall k | 0 <= k < |s| && !IsSpace(s[k]) ensures s[k] in r {
      assert i <= k < i + |r|;
      assert r[k - i] == s[k];
    }
  }

  /** A string is left alone by `Strip` exactly when it has no white space at either end. */
  lemma StripFixpoint(s: string)
    ensures Strip(s) == s <==> (s == [] || (!IsSpace(s[0]) && !IsSpace(s[|s| - 1])))
  {
    if s != [] && !IsSpace(s[0]) && !IsSpace(s[|s| - 1]) {
      assert LeadingSpaces(s) == 0;
      assert TrailingSpaces(s) == 0;
    }
  }

  /** Stripping twice is stripping once. */
  lemma StripIdempotent(s: string)
    ensures Strip(Strip(s)) == Strip(s)
  {
    StripFixpoint(Strip(s));
  }

  /** `a` sorts no later than `b` under SQLite's BINARY collation. */
  predicate TextLe(a: string, b: string) {
    a == [] || (b != [] && (a[0] < b[0] || (a[0] == b[0] && TextLe(a[1..], b[1..]))))
  }

  /** `a` sorts strictly before `b`. */
  predicate TextLt(a: string, b: string) {
    !TextLe(b, a)
  }

  lemma {:induction false} TextLeReflexive(a: string)
    ensures TextLe(a, a)
  {
    if a != [] {
      TextLeReflexive(a[1..]);
    }
  }

  lemma {:induction false} TextLeTotal(a: string, b: string)
    ensures TextLe(a, b) || TextLe(b, a)
  {
    if a != [] && b != [] && a[0] == b[0] {
      TextLeTotal(a[1..], b[1..]);
    }
  }

  lemma {:induction false} TextLeTransitive(a: string, b: string, c: string)
    requires TextLe(a, b) && TextLe(b, c)
    ensures TextLe(a, c)
  {
    if a != [] && a[0] == b[0] && b[0] == c[0] {
      TextLeTransitive(a[1..], b[1..], c[1..]);
    }
  }

  lemma {:induction false} TextLeAntisymmetric(a: string, b: string)
    requires TextLe(a, b) && TextLe(b, a)
    ensures a == b
  {
    if a != [] {
      TextLeAntisymmetric(a[1..], b[1..]);
      assert a == [a[0]] + a[1..] && b == [b[0]] + b[1..];
    }
  }

  /** `TextLt` is the strict part of `TextLe`. */
  lemma TextLtIsStrict(a: string, b: string)
    ensures TextLt(a, b) <==> TextLe(a, b) && a != b
  {
    TextLeTotal(a, b);
    TextLeReflexive(a);
    if TextLe(a, b) && TextLe(b, a) {
      TextLeAntisymmetric(a, b);
    }
  }

  lemma TextLtTransitive(a: string, b: string, c: string)
    requires TextLt(a, b) && TextLt(b, c)
    ensures TextLt(a, c)
  {
    TextLeTotal(a, b);
    if TextLe(c, a) {
      TextLeTransitive(c, a, b);
    }
  }
}
