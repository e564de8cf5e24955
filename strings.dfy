/**
 * The JavaScript string built-ins the upload and download code uses:
 * `split` on one character, `join` with one character and `trim`.
 */
module Strings {

  /** `s.split(d)`: the pieces between occurrences of `d`; `"".split(d)` is `[""]`. */
  function Split(s: string, d: char): (parts: seq<string>)
    ensures |parts| >= 1
    ensures forall k :: 0 <= k < |parts| ==> d !in parts[k]
  {
    if |s| == 0 then [""]
    else
      var rest := Split(s[1..], d);
      if s[0] == d then [""] + rest
      else [[s[0]] + rest[0]] + rest[1..]
  }

  /** `parts.join(d)`: the parts with `d` between neighbours; `[].join(d)` is `""`. */
  function Join(parts: seq<string>, d: char): string
  {
    if |parts| == 0 then ""
    else if |parts| == 1 then parts[0]
    else parts[0] + [d] + Join(parts[1..], d)
  }

  /** Joining the pieces of a split gives back the string. */
  lemma {:induction false} JoinSplit(s: string, d: char)
    ensures Join(Split(s, d), d) == s
  {
    if |s| > 0 {
      var rest := Split(s[1..], d);
      JoinSplit(s[1..], d);
      if s[0] == d {
        assert Split(s, d) == [""] + rest;
        assert ([""] + rest)[1..] == rest;
        assert Join([""] + rest, d) == "" + [d] + Join(rest, d);
        assert s == [s[0]] + s[1..];
      } else {
        var parts := Split(s, d);
        assert parts == [[s[0]] + rest[0]] + rest[1..];
        if |rest| == 1 {
          assert Join(parts, d) == [s[0]] + rest[0];
        } else {
          assert parts[1..] == rest[1..];
          assert Join(parts, d) == [s[0]] + rest[0] + [d] + Join(rest[1..], d);
          assert Join(rest, d) == rest[0] + [d] + Join(rest[1..], d);
        }
        assert s == [s[0]] + s[1..];
      }
    }
  }

  /** A string without the delimiter splits into itself alone. */
  lemma {:induction false} SplitWithoutDelimiter(p: string, d: char)
    requires d !in p
    ensures Split(p, d) == [p]
  {
    if |p| > 0 {
      SplitWithoutDelimiter(p[1..], d);
      assert [p[0]] + p[1..] == p;
    }
  }

  /** The first piece ends at the first delimiter. */
  lemma {:induction false} SplitAtDelimiter(p: string, d: char, t: string)
    requires d !in p
    ensures Split(p + [d] + t, d) == [p] + Split(t, d)
  {
    var s := p + [d] + t;
    if |p| == 0 {
      assert s[0] == d && s[1..] == t;
    } else {
      assert s[0] == p[0] && s[1..] == p[1..] + [d] + t;
      SplitAtDelimiter(p[1..], d, t);
      assert [p[0]] + p[1..] == p;
    }
  }

  /** Splitting a join of delimiter-free parts gives back the parts. */
  lemma {:induction false} SplitJoin(parts: seq<string>, d: char)
    requires |parts| >= 1
    requires forall k :: 0 <= k < |parts| ==> d !in parts[k]
    ensures Split(Join(parts, d), d) == parts
  {
    if |parts| == 1 {
      SplitWithoutDelimiter(parts[0], d);
    } else {
      SplitJoin(parts[1..], d);
      SplitAtDelimiter(parts[0], d, Join(parts[1..], d));
      assert [parts[0]] + parts[1..] == parts;
    }
  }

  /** A character other than the delimiter occurs in a join only if it occurs in a part. */
  lemma {:induction false} JoinAvoids(parts: seq<string>, d: char, c: char)
    requires c != d
    requires forall k :: 0 <= k < |parts| ==> c !in parts[k]
    ensures c !in Join(parts, d)
  {
    if |parts| > 1 {
      JoinAvoids(parts[1..], d, c);
      assert c !in parts[0];
    }
  }

  /**
   * The characters `trim` removes: the ECMAScript WhiteSpace code points
   * (TAB, VT, FF, SPACE, NO-BREAK SPACE, ZERO WIDTH NO-BREAK SPACE and the
   * Unicode space separators) and the LineTerminator code points (LF, CR,
   * LINE SEPARATOR, PARAGRAPH SEPARATOR).
   */
  predicate IsJsSpace(c: char)
  {
    var n := c as int;
    || n == 0x09 || n == 0x0A || n == 0x0B || n == 0x0C || n == 0x0D
    || n == 0x20 || n == 0xA0 || n == 0x1680
    || (0x2000 <= n <= 0x200A)
    || n == 0x2028 || n == 0x2029 || n == 0x202F || n == 0x205F
    || n == 0x3000 || n == 0xFEFF
  }

  /** The index of the first character at or after `i` that is not white space, or `|s|`. */
  function SkipSpace(s: string, i: nat): (j: nat)
    requires i <= |s|
    ensures i <= j <= |s|
    ensures forall k :: i <= k < j ==> IsJsSpace(s[k])
    ensures j < |s| ==> !IsJsSpace(s[j])
    decreases |s| - i
  {
    if i < |s| && IsJsSpace(s[i]) then SkipSpace(s, i + 1) else i
  }

  /** The index just past the last character in `s[lo..j]` that is not white space, or `lo`. */
  function SkipSpaceBack(s: string, lo: nat, j: nat): (e: nat)
    requires lo <= j <= |s|
    ensures lo <= e <= j
    ensures forall k :: e <= k < j ==> IsJsSpace(s[k])
    ensures e > lo ==> !IsJsSpace(s[e - 1])
    decreases j
  {
    if j > lo && IsJsSpace(s[j - 1]) then SkipSpaceBack(s, lo, j - 1) else j
  }

  /** Where `s.trim()` starts: the length of the leading white space. */
  function TrimFrom(s: string): nat
  {
    SkipSpace(s, 0)
  }

  /** Where `s.trim()` ends: just past the last character that is not white space. */
  function TrimTo(s: string): nat
  {
    SkipSpaceBack(s, TrimFrom(s), |s|)
  }

  /** `s.trim()`: `s` without its leading and trailing white space. */
  function Trim(s: string): (r: string)
    ensures |r| <= |s|
    ensures |r| > 0 ==> !IsJsSpace(r[0]) && !IsJsSpace(r[|r| - 1])
  {
    s[TrimFrom(s)..TrimTo(s)]
  }

  /**
   * `s.trim()` is the slice of `s` between its leading and its trailing
   * white space: only white space was cut away on either side.
   */
  lemma TrimIsInnerSlice(s: string)
    ensures var r := Trim(s); var i := TrimFrom(s);
      && i + |r| <= |s|
      && r == s[i..i + |r|]
      && (forall k :: 0 <= k < i ==> IsJsSpace(s[k]))
      && (forall k :: i + |r| <= k < |s| ==> IsJsSpace(s[k]))
  {
  }

  /** Every character of `s` is white space. */
  predicate SpaceOnly(s: string)
  {
    forall k :: 0 <= k < |s| ==> IsJsSpace(s[k])
  }

  lemma SpaceOnlyConcat(a: string, b: string)
    ensures SpaceOnly(a + b) <==> SpaceOnly(a) && SpaceOnly(b)
  {
    assert forall k :: 0 <= k < |a| ==> (a + b)[k] == a[k];
    assert forall k :: 0 <= k < |b| ==> (a + b)[|a| + k] == b[k];
  }

  /** Joining with a white-space delimiter gives white space only exactly when every part is white space only. */
  lemma {:induction false} JoinSpaceOnly(parts: seq<string>, d: char)
    requires IsJsSpace(d)
    ensures SpaceOnly(Join(parts, d)) <==> forall k :: 0 <= k < |parts| ==> SpaceOnly(parts[k])
  {
    if |parts| > 1 {
      JoinSpaceOnly(parts[1..], d);
      SpaceOnlyConcat(parts[0], [d]);
      SpaceOnlyConcat(parts[0] + [d], Join(parts[1..], d));
      assert forall k :: 1 <= k < |parts| ==> parts[k] == parts[1..][k - 1];
    }
  }

  /** A string is blank (trims to `""`) exactly when all its characters are white space. */
  lemma TrimBlank(s: string)
    ensures Trim(s) == "" <==> SpaceOnly(s)
  {
    if Trim(s) == "" {
      assert TrimTo(s) == TrimFrom(s);
    }
  }

  /** Trimming twice is trimming once. */
  lemma TrimIdempotent(s: string)
    ensures Trim(Trim(s)) == Trim(s)
  {
    var r := Trim(s);
    if |r| > 0 {
      assert TrimFrom(r) == 0;
      assert TrimTo(r) == |r|;
    }
  }
}
