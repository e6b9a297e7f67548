/** The three Python string operations the indexer relies on: `str.lower()`
    on one character, `str.strip()` with no argument and `str.split(sep)`
    with an explicit one-character separator. Lower-casing is modelled on
    ASCII and the Latin-1 block only; `strip` and `split` are exact. */
module Text {

  /** Python's `str.isspace()`: the characters `str.strip()` removes when it
      is called without an argument. */
  predicate IsSpace(c: char) {
    || c == ' '
    || ('\U{9}' <= c <= '\U{D}')
    || ('\U{1C}' <= c <= '\U{1F}')
    || c == '\U{85}' || c == '\U{A0}' || c == '\U{1680}'
    || ('\U{2000}' <= c <= '\U{200A}')
    || c == '\U{2028}' || c == '\U{2029}'
    || c == '\U{202F}' || c == '\U{205F}' || c == '\U{3000}'
  }

  /** Every character of `s` from position `lo` up to `hi` is whitespace. */
  predicate BlankBetween(s: string, lo: nat, hi: nat)
    requires lo <= hi <= |s|
  {
    forall k :: lo <= k < hi ==> IsSpace(s[k])
  }

  /** No whitespace at either end. */
  predicate Trimmed(s: string) {
    s == [] || (!IsSpace(s[0]) && !IsSpace(s[|s| - 1]))
  }

  /** Upper-case letters of ASCII and of the Latin-1 block (U+00C0 to U+00DE,
      without the multiplication sign U+00D7). */
  predicate IsUpper(c: char) {
    ('A' <= c <= 'Z') || ('\U{C0}' <= c <= '\U{DE}' && c != '\U{D7}')
  }

  /** Python's `str.lower()` on one character, restricted to the letters
      `IsUpper` names; every other character is its own lower case. */
  function ToLower(c: char): (r: char)
    ensures !IsUpper(r)
    ensures !IsUpper(c) ==> r == c
    ensures IsUpper(c) ==> r != c
  {
    if IsUpper(c) then (c as int + 32) as char else c
  }

  /** Lower-casing twice is lower-casing once. */
  lemma ToLowerIdempotent(c: char)
    ensures ToLower(ToLower(c)) == ToLower(c)
  {
  }

  /** The end of the run of whitespace that starts at position `i`: the
      first position from `i` on that holds no whitespace, or `|s|`. */
  function BlankRunEnd(s: string, i: nat): (r: nat)
    requires i <= |s|
    ensures i <= r <= |s|
    ensures BlankBetween(s, i, r)
    ensures r == |s| || !IsSpace(s[r])
    decreases |s| - i
  {
    if i < |s| && IsSpace(s[i]) then BlankRunEnd(s, i + 1) else i
  }

  /** The start of the run of whitespace that ends at position `j`, going
      back no further than `lo`. */
  function BlankRunStart(s: string, lo: nat, j: nat): (r: nat)
    requires lo <= j <= |s|
    ensures lo <= r <= j
    ensures BlankBetween(s, r, j)
    ensures r == lo || !IsSpace(s[r - 1])
    decreases j
  {
    if j > lo && IsSpace(s[j - 1]) then BlankRunStart(s, lo, j - 1) else j
  }

  /** Where the stripped text starts inside `s`. */
  function StripOffset(s: string): (r: nat)
    ensures r <= |s|
  {
    BlankRunEnd(s, 0)
  }

  /** Python's `str.strip()` with no argument: leading whitespace is cut
      off, then trailing whitespace off what is left. The result is the
      slice of `s` between two runs of whitespace; it has no whitespace at
      either end, and `s` comes back unchanged exactly when it had none. */
  function Strip(s: string): (r: string)
    ensures Trimmed(r)
    ensures StripOffset(s) + |r| <= |s|
    ensures r == s[StripOffset(s)..StripOffset(s) + |r|]
    ensures BlankBetween(s, 0, StripOffset(s)) && BlankBetween(s, StripOffset(s) + |r|, |s|)
    ensures r == s <==> Trimmed(s)
    ensures forall c :: c in r ==> c in s
  {
    var i := StripOffset(s);
    var j := BlankRunStart(s, i, |s|);
    assert forall c :: c in s[i..j] ==> c in s by {
      forall c | c in s[i..j] ensures c in s {
        var k :| 0 <= k < j - i && s[i..j][k] == c;
        assert s[i + k] == c;
      }
    }
    s[i..j]
  }

  /** Stripping is idempotent. */
  lemma StripIdempotent(s: string)
    ensures Strip(Strip(s)) == Strip(s)
  {
  }

  /** Python's `s.split(sep)` for a one-character separator: the pieces
      between consecutive separators, in order; always at least one piece,
      and no piece contains the separator. */
  function Split(s: string, sep: char): (r: seq<string>)
    ensures |r| >= 1
    ensures forall k :: 0 <= k < |r| ==> sep !in r[k]
    decreases |s|
  {
    if |s| == 0 then [""]
    else
      var rest := Split(s[1..], sep);
      if s[0] == sep then [""] + rest else [[s[0]] + rest[0]] + rest[1..]
  }

  /** Python's `sep.join(parts)`, the inverse of `Split`. */
  function Join(parts: seq<string>, sep: char): string
    requires |parts| >= 1
    decreases |parts|
  {
    if |parts| == 1 then parts[0] else parts[0] + [sep] + Join(parts[1..], sep)
  }

  /** Joining the pieces back with the separator gives the original string. */
  lemma {:induction false} JoinSplit(s: string, sep: char)
    ensures Join(Split(s, sep), sep) == s
    decreases |s|
  {
    if |s| > 0 {
      JoinSplit(s[1..], sep);
      var rest := Split(s[1..], sep);
      assert s == [s[0]] + s[1..];
      if s[0] == sep {
        assert ([""] + rest)[1..] == rest;
      } else {
        var r := [[s[0]] + rest[0]] + rest[1..];
        if |rest| > 1 {
          assert r[1..] == rest[1..];
          assert Join(rest, sep) == rest[0] + [sep] + Join(rest[1..], sep);
        }
      }
    }
  }

  /** A string holding the separator splits into at least two pieces. */
  lemma {:induction false} SplitAtLeastTwo(s: string, sep: char)
    requires sep in s
    ensures |Split(s, sep)| >= 2
    decreases |s|
  {
    if s[0] != sep {
      assert sep in s[1..] by {
        var k :| 0 <= k < |s| && s[k] == sep;
        assert s[1..][k - 1] == sep;
      }
      SplitAtLeastTwo(s[1..], sep);
    }
  }

  /** A string without the separator is a single piece. */
  lemma {:induction false} SplitNoSeparator(s: string, sep: char)
    requires sep !in s
    ensures Split(s, sep) == [s]
    decreases |s|
  {
    if |s| > 0 {
      SplitNoSeparator(s[1..], sep);
      assert s == [s[0]] + s[1..];
    }
  }

  /** Splitting at the first separator. */
  lemma {:induction false} SplitAtSeparator(p: string, t: string, sep: char)
    requires sep !in p
    ensures Split(p + [sep] + t, sep) == [p] + Split(t, sep)
    decreases |p|
  {
    var s := p + [sep] + t;
    if |p| == 0 {
      assert s[1..] == t;
    } else {
      SplitAtSeparator(p[1..], t, sep);
      assert s[1..] == p[1..] + [sep] + t;
      assert [s[0]] + p[1..] == p;
    }
  }

  /** Splitting a join of separator-free pieces gives the pieces back. */
  lemma {:induction false} SplitJoin(parts: seq<string>, sep: char)
    requires |parts| >= 1
    requires forall k :: 0 <= k < |parts| ==> sep !in parts[k]
    ensures Split(Join(parts, sep), sep) == parts
    decreases |parts|
  {
    if |parts| == 1 {
      SplitNoSeparator(parts[0], sep);
    } else {
      SplitJoin(parts[1..], sep);
      SplitAtSeparator(parts[0], Join(parts[1..], sep), sep);
    }
  }
}
