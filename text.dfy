/** Python string behaviour the lattice code relies on: `str.strip()`, `str.lower()` on the
    priority keywords, and the code-point order of `<` on strings. */
module Text {

  /** The characters Python's `str.isspace()` accepts, hence those `str.strip()` removes. */
  predicate IsSpace(c: char) {
    || c == ' ' || c == '\t' || c == '\n' || c == '\r'
    || c == '\U{000B}' || c == '\U{000C}'
    || ('\U{001C}' <= c <= '\U{001F}')
    || c == '\U{0085}' || c == '\U{00A0}' || c == '\U{1680}'
    || ('\U{2000}' <= c <= '\U{200A}')
    || c == '\U{2028}' || c == '\U{2029}' || c == '\U{202F}' || c == '\U{205F}' || c == '\U{3000}'
  }

  predicate AllSpace(s: string) {
    forall i :: 0 <= i < |s| ==> IsSpace(s[i])
  }

  /** `s.lstrip()`: the suffix left after dropping leading whitespace. */
  function TrimStart(s: string): (r: string)
    ensures |r| <= |s| && r == s[|s| - |r|..]
    ensures AllSpace(s[..|s| - |r|])
    ensures r == [] || !IsSpace(r[0])
  {
    if s != [] && IsSpace(s[0]) then
      var p := s[1..];
      var r := TrimStart(p);
      assert s[|s| - |r|..] == p[|p| - |r|..];
      assert AllSpace(s[..|s| - |r|]) by {
        var a, b := s[..|s| - |r|], p[..|p| - |r|];
        forall k | 0 <= k < |a| ensures IsSpace(a[k]) {
          if k == 0 {
            assert a[k] == s[0];
          } else {
            assert a[k] == b[k - 1];
          }
        }
      }
      r
    else s
  }

  /** `s.rstrip()`: the prefix left after dropping trailing whitespace. */
  function TrimEnd(s: string): (r: string)
    ensures |r| <= |s| && r == s[..|r|]
    ensures AllSpace(s[|r|..])
    ensures r == [] || !IsSpace(r[|r| - 1])
  {
    if s != [] && IsSpace(s[|s| - 1]) then
      var p := s[..|s| - 1];
      var r := TrimEnd(p);
      assert s[..|r|] == p[..|r|];
      assert AllSpace(s[|r|..]) by {
        forall k | 0 <= k < |s| - |r| ensures IsSpace(s[|r|..][k]) {
          if |r| + k < |s| - 1 {
            assert s[|r|..][k] == p[|r|..][k];
          }
        }
      }
      r
    else s
  }

  /** `s.strip()`. */
  function Strip(s: string): string {
    TrimEnd(TrimStart(s))
  }

  /** `s.strip()` is a middle slice of `s` with only whitespace cut off on either side, and it is
      empty exactly when `s` is all whitespace; otherwise it starts and ends with a non-space. */
  lemma StripSlice(s: string)
    ensures exists i, j :: 0 <= i <= j <= |s| && Strip(s) == s[i..j] && AllSpace(s[..i]) && AllSpace(s[j..])
    ensures Strip(s) == [] <==> AllSpace(s)
    ensures Strip(s) != [] ==> !IsSpace(Strip(s)[0]) && !IsSpace(Strip(s)[|Strip(s)| - 1])
  {
    var i := StripBounds(s);
    StripEmpty(s);
    var r := Strip(s);
    if r != [] {
      assert r[0] == TrimStart(s)[0];
    }
  }

  /** The slice bounds of `s.strip()`: whitespace before `i` and after `i + |Strip(s)|`. */
  lemma StripBounds(s: string) returns (i: int)
    ensures 0 <= i <= i + |Strip(s)| <= |s| && Strip(s) == s[i..i + |Strip(s)|]
    ensures AllSpace(s[..i]) && AllSpace(s[i + |Strip(s)|..])
  {
    var t := TrimStart(s);
    var r := TrimEnd(t);
    assert Strip(s) == r;
    i := |s| - |t|;
    PrefixOfSuffix(s, i, t, r);
    assert AllSpace(s[i + |r|..]) by {
      assert AllSpace(t[|r|..]);
    }
  }

  /** `s.strip()` is empty exactly when `s` is all whitespace. */
  lemma StripEmpty(s: string)
    ensures Strip(s) == [] <==> AllSpace(s)
  {
    var t := TrimStart(s);
    var r := TrimEnd(t);
    var i := |s| - |t|;
    if r == [] {
      assert t[|r|..] == t;
      assert t == [];
      assert s[..i] == s;
    } else {
      PrefixOfSuffix(s, i, t, r);
      assert !IsSpace(s[i]);
    }
  }

  /** A prefix `r` of the suffix `t` of `s` starting at `i` is the slice of `s` from `i`, and what `t`
      keeps after it is the rest of `s`. */
  lemma PrefixOfSuffix<T>(s: seq<T>, i: int, t: seq<T>, r: seq<T>)
    requires 0 <= i <= |s| && t == s[i..] && |r| <= |t| && r == t[..|r|]
    ensures r == s[i..i + |r|] && s[i + |r|..] == t[|r|..]
    ensures r != [] ==> r[0] == t[0] == s[i]
  {
  }

  /** Stripping twice is the same as stripping once. */
  lemma StripIdempotent(s: string)
    ensures Strip(Strip(s)) == Strip(s)
  {
    var r := Strip(s);
    StripSlice(s);
    if r != [] {
      assert TrimStart(r) == r;
      assert TrimEnd(r) == r;
    }
  }

  /** `c.lower()` for the ASCII letters; every other character is returned unchanged. */
  function LowerChar(c: char): char {
    if 'A' <= c <= 'Z' then (c as int - 'A' as int + 'a' as int) as char else c
  }

  /** `s.lower()`, character by character. */
  function Lower(s: string): (r: string)
    ensures |r| == |s|
    ensures forall i :: 0 <= i < |s| ==> r[i] == LowerChar(s[i])
  {
    if s == [] then [] else [LowerChar(s[0])] + Lower(s[1..])
  }

  /** `a <= b` on Python strings: lexicographic order on code points, a prefix before its extensions. */
  predicate StrLe(a: string, b: string) {
    a == [] || (b != [] && (a[0] < b[0] || (a[0] == b[0] && StrLe(a[1..], b[1..]))))
  }

  /** The string order is total, antisymmetric and transitive. */
  lemma {:induction false} StrLeTotal(a: string, b: string)
    ensures StrLe(a, b) || StrLe(b, a)
    ensures StrLe(a, b) && StrLe(b, a) ==> a == b
  {
    if a != [] && b != [] && a[0] == b[0] {
      StrLeTotal(a[1..], b[1..]);
      if StrLe(a, b) && StrLe(b, a) {
        assert a == [a[0]] + a[1..] && b == [b[0]] + b[1..];
      }
    }
  }

  lemma {:induction false} StrLeTransitive(a: string, b: string, c: string)
    requires StrLe(a, b) && StrLe(b, c)
    ensures StrLe(a, c)
  {
    if a != [] && b != [] && c != [] && a[0] == b[0] == c[0] {
      StrLeTransitive(a[1..], b[1..], c[1..]);
    }
  }
}
