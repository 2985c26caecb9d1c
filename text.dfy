/** The JavaScript string operations the pipeline relies on, on `seq<char>`. */
module Text {

  /** JavaScript's `\d`: an ASCII decimal digit only. */
  predicate IsDigit(c: char) {
    '0' <= c <= '9'
  }

  /** The characters a regular-expression `.` does not match in JavaScript. */
  predicate IsLineTerminator(c: char) {
    c == '\n' || c == '\r' || c == '\U{2028}' || c == '\U{2029}'
  }

  /** What `String.prototype.trim` removes: JavaScript white space and line terminators. */
  const JsSpaces: set<char> := {
    '\t', '\U{B}', '\U{C}', ' ', '\U{A0}', '\U{FEFF}', '\U{1680}',
    '\U{2000}', '\U{2001}', '\U{2002}', '\U{2003}', '\U{2004}', '\U{2005}',
    '\U{2006}', '\U{2007}', '\U{2008}', '\U{2009}', '\U{200A}',
    '\U{202F}', '\U{205F}', '\U{3000}',
    '\n', '\r', '\U{2028}', '\U{2029}'
  }

  predicate IsJsSpace(c: char) {
    c in JsSpaces
  }

  /** Number of occurrences of `c` in `s`. */
  function Count(s: string, c: char): nat {
    if s == [] then 0 else (if s[0] == c then 1 else 0) + Count(s[1..], c)
  }

  /** Counting from position `k` looks at `s[k]` and then counts from `k + 1`. */
  lemma CountFrom(s: string, c: char, k: nat)
    requires k < |s|
    ensures Count(s[k..], c) == (if s[k] == c then 1 else 0) + Count(s[k + 1..], c)
  {
    assert s[k..][1..] == s[k + 1..];
  }

  lemma {:induction false} CountAppend(a: string, b: string, c: char)
    ensures Count(a + b, c) == Count(a, c) + Count(b, c)
  {
    if a != [] {
      CountAppend(a[1..], b, c);
      assert (a + b)[0] == a[0];
      assert (a + b)[1..] == a[1..] + b;
    } else {
      assert a + b == b;
    }
  }

  lemma {:induction false} CountZero(s: string, c: char)
    ensures Count(s, c) == 0 <==> c !in s
  {
    if s != [] {
      CountZero(s[1..], c);
      assert s == [s[0]] + s[1..];
    }
  }

  /** `s.split(sep)` for a one-character separator: the pieces between separators, in order. */
  function Split(s: string, sep: char): (r: seq<string>)
    ensures |r| >= 1
    decreases |s|
  {
    if s == [] then [""]
    else
      var rest := Split(s[1..], sep);
      if s[0] == sep then [""] + rest else [[s[0]] + rest[0]] + rest[1..]
  }

  /** The inverse of `Split`: `parts.join(sep)`. */
  function JoinWith(parts: seq<string>, sep: char): string
    requires |parts| >= 1
  {
    if |parts| == 1 then parts[0] else parts[0] + [sep] + JoinWith(parts[1..], sep)
  }

  /** Splitting loses nothing: the pieces joined back give the input, and no piece holds `sep`. */
  lemma {:induction false} SplitJoin(s: string, sep: char)
    ensures JoinWith(Split(s, sep), sep) == s
    ensures forall k :: 0 <= k < |Split(s, sep)| ==> sep !in Split(s, sep)[k]
    decreases |s|
  {
    if s != [] {
      var rest := Split(s[1..], sep);
      SplitJoin(s[1..], sep);
      if s[0] == sep {
        assert Split(s, sep) == [""] + rest;
      } else {
        var r := Split(s, sep);
        assert r == [[s[0]] + rest[0]] + rest[1..];
        if |rest| == 1 {
          assert JoinWith(r, sep) == [s[0]] + rest[0];
        } else {
          assert JoinWith(rest, sep) == rest[0] + [sep] + JoinWith(rest[1..], sep);
          assert JoinWith(r, sep) == [s[0]] + rest[0] + [sep] + JoinWith(rest[1..], sep);
        }
        assert s == [s[0]] + s[1..];
        forall k | 0 <= k < |r| ensures sep !in r[k] {
          if k > 0 { assert r[k] == rest[k]; }
        }
      }
    }
  }

  /** There is one more piece than there are separators. */
  lemma {:induction false} SplitLength(s: string, sep: char)
    ensures |Split(s, sep)| == Count(s, sep) + 1
    decreases |s|
  {
    if s != [] {
      SplitLength(s[1..], sep);
    }
  }

  /** `s.split(sep).pop()`: the last piece. */
  function LastField(s: string, sep: char): string {
    var parts := Split(s, sep);
    parts[|parts| - 1]
  }

  /** After a separator followed by separator-free text, the last piece is that text. */
  lemma LastFieldAfter(a: string, b: string, sep: char)
    requires sep !in b
    ensures LastField(a + [sep] + b, sep) == b
  {
    var s := a + [sep] + b;
    LastFieldSpec(s, sep);
    var r := LastField(s, sep);
    assert s[|a|] == sep;
    assert s[|a| + 1..] == b;
  }

  /** A string without the separator splits into itself alone. */
  lemma {:induction false} SplitNoSep(s: string, sep: char)
    requires sep !in s
    ensures Split(s, sep) == [s]
    decreases |s|
  {
    if s != [] {
      SplitNoSep(s[1..], sep);
      assert [s[0]] + s[1..] == s;
    }
  }

  /** The last piece of a non-empty string, in terms of the last piece of its tail. */
  lemma LastFieldCons(s: string, sep: char)
    requires s != []
    ensures LastField(s, sep) == if s[0] != sep && sep !in s[1..] then s else LastField(s[1..], sep)
  {
    if s[0] == sep {
      LastFieldAfterSep(s, sep);
    } else if sep !in s[1..] {
      assert s == [s[0]] + s[1..];
      SplitNoSep(s, sep);
    } else {
      LastFieldBeforeSep(s, sep);
    }
  }

  lemma LastFieldAfterSep(s: string, sep: char)
    requires s != [] && s[0] == sep
    ensures LastField(s, sep) == LastField(s[1..], sep)
  {
    var rest := Split(s[1..], sep);
    assert Split(s, sep) == [""] + rest;
  }

  lemma LastFieldBeforeSep(s: string, sep: char)
    requires s != [] && s[0] != sep && sep in s[1..]
    ensures LastField(s, sep) == LastField(s[1..], sep)
  {
    var rest := Split(s[1..], sep);
    SplitLength(s[1..], sep);
    CountZero(s[1..], sep);
    assert |rest| >= 2;
    assert Split(s, sep) == [[s[0]] + rest[0]] + rest[1..];
  }

  /** `r` is the text after the last `sep` of `s`, or all of `s` when `s` holds no `sep`. */
  ghost predicate IsLastField(s: string, sep: char, r: string) {
    && |r| <= |s| && s[|s| - |r|..] == r && sep !in r
    && (sep !in s ==> r == s)
    && (sep in s ==> |r| < |s| && s[|s| - |r| - 1] == sep)
  }

  /** A last field of the tail is one of the whole string when the string holds a separator. */
  lemma LastFieldOfTail(s: string, sep: char, r: string)
    requires s != [] && (s[0] == sep || sep in s[1..]) && IsLastField(s[1..], sep, r)
    ensures IsLastField(s, sep, r)
  {
    assert s == [s[0]] + s[1..];
    assert s[|s| - |r|..] == s[1..][|s| - 1 - |r|..];
    if sep in s[1..] {
      assert s[|s| - |r| - 1] == s[1..][|s| - 1 - |r| - 1];
    }
  }

  /** The last piece is the text after the last `sep`, or all of `s` when `s` holds no `sep`. */
  lemma {:induction false} LastFieldSpec(s: string, sep: char)
    ensures IsLastField(s, sep, LastField(s, sep))
    decreases |s|
  {
    if s != [] {
      LastFieldCons(s, sep);
      if s[0] == sep || sep in s[1..] {
        LastFieldSpec(s[1..], sep);
        LastFieldOfTail(s, sep, LastField(s[1..], sep));
      } else {
        assert s == [s[0]] + s[1..];
      }
    }
  }

  /** Removes leading JavaScript white space. */
  function TrimStart(s: string): (r: string)
    ensures |r| <= |s| && r == s[|s| - |r|..]
    ensures forall i :: 0 <= i < |s| - |r| ==> IsJsSpace(s[i])
    ensures r == [] || !IsJsSpace(r[0])
  {
    if s != [] && IsJsSpace(s[0]) then TrimStart(s[1..]) else s
  }

  /** Removes trailing JavaScript white space. */
  function TrimEnd(s: string): (r: string)
    ensures |r| <= |s| && r == s[..|r|]
    ensures forall i :: |r| <= i < |s| ==> IsJsSpace(s[i])
    ensures r == [] || !IsJsSpace(r[|r| - 1])
  {
    if s != [] && IsJsSpace(s[|s| - 1]) then TrimEnd(s[..|s| - 1]) else s
  }

  /** `s.trim()`. */
  function Trim(s: string): string {
    TrimEnd(TrimStart(s))
  }

  /** `trim` keeps a contiguous middle part and removes only white space around it. */
  lemma TrimSpec(s: string)
    ensures exists i, j :: TrimmedBetween(s, i, j)
  {
    var t := TrimStart(s);
    var r := TrimEnd(t);
    var i := |s| - |t|;
    var j := i + |r|;
    assert r == s[i..j] by {
      assert t == s[i..] && r == t[..|r|];
    }
    forall k | j <= k < |s| ensures IsJsSpace(s[k]) {
      assert s[k] == t[k - i];
    }
    assert TrimmedBetween(s, i, j);
  }

  /** What `trim` keeps neither starts nor ends with white space. */
  lemma TrimEdges(s: string)
    ensures Trim(s) == [] || (!IsJsSpace(Trim(s)[0]) && !IsJsSpace(Trim(s)[|Trim(s)| - 1]))
  {
    var t := TrimStart(s);
    var r := TrimEnd(t);
    if r != [] {
      assert r[0] == t[0];
    }
  }

  /** `Trim(s)` is `s[i..j]`, with only white space before `i` and from `j` on. */
  ghost predicate TrimmedBetween(s: string, i: int, j: int) {
    && 0 <= i <= j <= |s| && Trim(s) == s[i..j]
    && (forall k :: 0 <= k < i ==> IsJsSpace(s[k]))
    && (forall k :: j <= k < |s| ==> IsJsSpace(s[k]))
  }

  /** `trim` keeps a slice, so it adds no character. */
  lemma TrimWithout(s: string, c: char)
    requires c !in s
    ensures c !in Trim(s)
  {
    TrimSpec(s);
    var i, j :| TrimmedBetween(s, i, j);
    NotInSlice(s, c, i, j);
  }

  /** A character missing from `s` is missing from every slice of it. */
  lemma NotInSlice(s: string, c: char, i: int, j: int)
    requires 0 <= i <= j <= |s| && c !in s
    ensures c !in s[i..j]
  {
    forall k | 0 <= k < j - i ensures s[i..j][k] != c {
      assert s[i..j][k] == s[i + k];
    }
  }

  /** `s.replace(/<suffix>$/, '')`: removes one occurrence of `suffix` at the very end. */
  function RemoveSuffix(s: string, suffix: string): string {
    if |suffix| <= |s| && s[|s| - |suffix|..] == suffix then s[..|s| - |suffix|] else s
  }

  /** Removing a suffix keeps a prefix, so it adds no character. */
  lemma RemoveSuffixWithout(s: string, suffix: string, c: char)
    requires c !in s
    ensures c !in RemoveSuffix(s, suffix)
  {
    if |suffix| <= |s| && s[|s| - |suffix|..] == suffix {
      NotInSlice(s, c, 0, |s| - |suffix|);
      assert s[..|s| - |suffix|] == s[0..|s| - |suffix|];
    }
  }

  /** `s.search(pattern) !== -1` for a pattern without wildcards. */
  predicate Contains(s: string, pattern: string) {
    exists i :: 0 <= i <= |s| - |pattern| && OccursAt(s, pattern, i)
  }

  /** `pattern` occurs in `s` starting at index `i`. */
  predicate OccursAt(s: string, pattern: string, i: int) {
    0 <= i <= |s| - |pattern| && s[i..i + |pattern|] == pattern
  }

  /** The number of leading characters of `s` a regular-expression `.` can match. */
  function LineLen(s: string): (n: nat)
    ensures n <= |s|
    ensures forall i :: 0 <= i < n ==> !IsLineTerminator(s[i])
    ensures n < |s| ==> IsLineTerminator(s[n])
  {
    if s == [] || IsLineTerminator(s[0]) then 0 else 1 + LineLen(s[1..])
  }
}
