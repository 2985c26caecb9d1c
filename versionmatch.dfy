/**
 * `util.semverToTag` (src/util.js:113-141) and the two decisions built on it: the treeish
 * `getArchive` resolves (src/util.js:249-256) and the staleness rule of `needsUpdate`
 * (src/util.js:144-155).
 */
module VersionMatch {
  import opened Common
  import opened Text
  import opened Semver

  /** A tag that carries a version, as `semverToTag`'s map step builds it. */
  datatype Candidate = Candidate(tag: string, version: Version)

  const TagsPrefix: string := "refs/tags/"

  /** The index of the last digit of `s` before position `n`. */
  function LastDigitBefore(s: string, n: nat): (r: Option<nat>)
    requires n <= |s|
    ensures r.Some? ==> r.value < n && IsDigit(s[r.value])
    ensures r.Some? ==> forall j :: r.value < j < n ==> !IsDigit(s[j])
    ensures r.None? ==> forall j :: 0 <= j < n ==> !IsDigit(s[j])
  {
    if n == 0 then None
    else if IsDigit(s[n - 1]) then Some(n - 1)
    else LastDigitBefore(s, n - 1)
  }

  /**
   * How much of `rest` the `(.*\d+)` group takes: up to the last digit before the first line
   * terminator (greedy `.*`, then the one digit `\d+` can still take).
   */
  function GroupLength(rest: string): Option<nat> {
    match LastDigitBefore(rest, LineLen(rest))
    case None => None
    case Some(d) => Some(d + 1)
  }

  /** `tag` is the `(.*\d+)` capture for a "refs/tags/" found at `q` in `ref`. */
  ghost predicate CapturedAt(ref: string, q: nat, tag: string) {
    && OccursAt(ref, TagsPrefix, q)
    && 0 < |tag| && q + 10 + |tag| <= |ref| && ref[q + 10..q + 10 + |tag|] == tag
    && IsDigit(tag[|tag| - 1])
    && (forall k :: 0 <= k < |tag| ==> !IsLineTerminator(tag[k]))
  }

  /** `ref.match(/refs\/tags\/(.*\d+)/)[1]`, trying start positions from `p` on. */
  function TagCaptureFrom(ref: string, p: nat): Option<string>
    decreases |ref| - p
  {
    if p + |TagsPrefix| > |ref| then None
    else
      var g := GroupLength(ref[p + 10..]);
      if OccursAt(ref, TagsPrefix, p) && g.Some? then Some(ref[p + 10..p + 10 + g.value])
      else TagCaptureFrom(ref, p + 1)
  }

  /** A capture is a "refs/tags/" occurrence followed by text that ends in a digit, within one line. */
  lemma {:induction false} TagCaptureSound(ref: string, p: nat)
    ensures TagCaptureFrom(ref, p).Some? ==> exists q :: p <= q && CapturedAt(ref, q, TagCaptureFrom(ref, p).value)
    decreases |ref| - p
  {
    if p + |TagsPrefix| <= |ref| {
      var g := GroupLength(ref[p + 10..]);
      if OccursAt(ref, TagsPrefix, p) && g.Some? {
        var tag := ref[p + 10..p + 10 + g.value];
        assert forall k :: 0 <= k < |tag| ==> tag[k] == ref[p + 10..][k];
        assert CapturedAt(ref, p, tag);
      } else {
        TagCaptureSound(ref, p + 1);
      }
    }
  }

  function TagCapture(ref: string): Option<string> {
    TagCaptureFrom(ref, 0)
  }

  /**
   * For a plain `refs/tags/<t>` ref the tag is `t` up to and including its last digit, so a
   * peeled `refs/tags/v1.2.3^{}` gives `v1.2.3`; a `t` without digits gives no tag.
   */
  lemma TagOfPlainRef(t: string)
    requires forall k :: 0 <= k < |t| ==> !IsLineTerminator(t[k])
    ensures LastDigitBefore(t, |t|).Some? ==>
      TagCapture(TagsPrefix + t) == Some(t[..LastDigitBefore(t, |t|).value + 1])
    ensures LastDigitBefore(t, |t|).None? ==> TagCapture(TagsPrefix + t) == None
  {
    var last := LastDigitBefore(t, |t|);
    if last.Some? {
      WholeGroup(t);
      PlainTagCapture(t, last.value);
    } else {
      TagOfPlainRefNone(t);
    }
  }

  /** On a terminator-free `t`, the group runs to the last digit of `t`. */
  lemma {:induction false} WholeGroup(t: string)
    requires forall k :: 0 <= k < |t| ==> !IsLineTerminator(t[k])
    requires LastDigitBefore(t, |t|).Some?
    ensures GroupLength(t) == Some(LastDigitBefore(t, |t|).value + 1)
  {
    var n := LineLen(t);
    LineLenWhole(t);
    assert n == |t|;
  }

  /** When the group takes `d + 1` characters of `t`, they are the tag of `refs/tags/<t>`. */
  lemma PlainTagCapture(t: string, d: nat)
    requires GroupLength(t) == Some(d + 1)
    ensures TagCapture(TagsPrefix + t) == Some(t[..d + 1])
  {
    var ref := TagsPrefix + t;
    TagsRef(t);
    StartTag(ref, d + 1);
    PlainTagSome(t, ref, d);
  }

  lemma TagOfPlainRefNone(t: string)
    requires LastDigitBefore(t, |t|).None?
    ensures TagCapture(TagsPrefix + t) == None
  {
    var ref := TagsPrefix + t;
    TagsRef(t);
    NoDigitNoGroup(t);
    LaterNoTag(t);
    StartNoTag(ref);
  }

  /** After the "refs/tags/" at the start, a digit-free tail gives no capture at a later position. */
  lemma LaterNoTag(t: string)
    requires LastDigitBefore(t, |t|).None?
    ensures TagCaptureFrom(TagsPrefix + t, 1) == None
  {
    var ref := TagsPrefix + t;
    TagsRef(t);
    NoDigitAfterPrefix(ref, t);
    NoDigitNoTag(ref, 1);
  }

  lemma NoDigitAfterPrefix(ref: string, t: string)
    requires 10 <= |ref| && ref[10..] == t
    requires forall j :: 0 <= j < |t| ==> !IsDigit(t[j])
    ensures forall k :: 10 <= k < |ref| ==> !IsDigit(ref[k])
  {
    assert forall k :: 10 <= k < |ref| ==> ref[k] == t[k - 10];
  }

  /** `refs/tags/<t>` starts with the prefix and continues with `t`. */
  lemma TagsRef(t: string)
    ensures OccursAt(TagsPrefix + t, TagsPrefix, 0) && (TagsPrefix + t)[10..] == t
  {
    var ref := TagsPrefix + t;
    assert ref[0..10] == TagsPrefix;
  }

  lemma PlainTagSome(t: string, ref: string, d: nat)
    requires ref == TagsPrefix + t && d < |t|
    ensures ref[10..10 + d + 1] == t[..d + 1]
  {
  }

  /** A ref that starts with "refs/tags/" is captured at position 0 when the group matches there. */
  lemma StartTag(ref: string, g: nat)
    requires OccursAt(ref, TagsPrefix, 0) && GroupLength(ref[10..]) == Some(g)
    ensures TagCapture(ref) == Some(ref[10..10 + g])
  {
  }

  /** When the group does not match after the leading "refs/tags/", the search moves on. */
  lemma StartNoTag(ref: string)
    requires OccursAt(ref, TagsPrefix, 0) && GroupLength(ref[10..]).None?
    requires TagCaptureFrom(ref, 1) == None
    ensures TagCapture(ref) == None
  {
  }

  /** A line without terminators is matched by `.*` to its end. */
  lemma {:induction false} LineLenWhole(t: string)
    requires forall k :: 0 <= k < |t| ==> !IsLineTerminator(t[k])
    ensures LineLen(t) == |t|
  {
    if t != [] {
      LineLenWhole(t[1..]);
    }
  }

  /** With no digit after position `p + 10`, no capture starts at `p` or later. */
  lemma {:induction false} NoDigitNoTag(ref: string, p: nat)
    requires forall k :: p + 10 <= k < |ref| ==> !IsDigit(ref[k])
    ensures TagCaptureFrom(ref, p) == None
    decreases |ref| - p
  {
    if p + 10 <= |ref| {
      var rest := ref[p + 10..];
      assert forall j :: 0 <= j < |rest| ==> rest[j] == ref[p + 10 + j];
      NoDigitNoGroup(rest);
      NoDigitNoTag(ref, p + 1);
    }
  }

  /** Without a digit the `(.*\d+)` group cannot match. */
  lemma NoDigitNoGroup(s: string)
    requires forall j :: 0 <= j < |s| ==> !IsDigit(s[j])
    ensures GroupLength(s) == None
  {
  }

  /** The length of the run of digits starting at `i`. */
  function DigitRun(s: string, i: nat): (n: nat)
    requires i <= |s|
    ensures i + n <= |s|
    ensures forall k :: i <= k < i + n ==> IsDigit(s[k])
    ensures i + n < |s| ==> !IsDigit(s[i + n])
    decreases |s| - i
  {
    if i < |s| && IsDigit(s[i]) then 1 + DigitRun(s, i + 1) else 0
  }

  /** The decimal value of a string of digits. */
  function Num(digits: string): nat {
    if digits == [] then 0
    else 10 * Num(digits[..|digits| - 1]) + ((digits[|digits| - 1] as int - '0' as int) % 10)
  }

  /**
   * `(\d+\.\d+\.\d+)` tried at `i`. Each `\d+` must take its whole run of digits: a shorter
   * take would leave a digit where a '.' (or nothing) is needed, so there is no backtracking.
   */
  function TripleAt(s: string, i: nat): Option<Version>
    requires i <= |s|
  {
    var j := i + DigitRun(s, i);
    if j == i || j >= |s| || s[j] != '.' then None
    else
      var k := j + 1 + DigitRun(s, j + 1);
      if k == j + 1 || k >= |s| || s[k] != '.' then None
      else
        var e := k + 1 + DigitRun(s, k + 1);
        if e == k + 1 then None
        else Some(Version(Num(s[i..j]), Num(s[j + 1..k]), Num(s[k + 1..e])))
  }

  /** `tag.match(/(\d+\.\d+\.\d+)/)`: the leftmost match from `i` on. */
  function FirstTriple(s: string, i: nat): Option<Version>
    requires i <= |s|
    decreases |s| - i
  {
    match TripleAt(s, i)
    case Some(v) => Some(v)
    case None => if i == |s| then None else FirstTriple(s, i + 1)
  }

  /** `FirstTriple` is the leftmost start position where `TripleAt` matches, and none when there is none. */
  lemma {:induction false} FirstTripleLeftmost(s: string, i: nat)
    requires i <= |s|
    ensures FirstTriple(s, i).Some? ==>
      exists p :: i <= p <= |s| && TripleAt(s, p) == FirstTriple(s, i)
        && forall q :: i <= q < p ==> TripleAt(s, q).None?
    ensures FirstTriple(s, i).None? ==> forall q :: i <= q <= |s| ==> TripleAt(s, q).None?
    decreases |s| - i
  {
    var here := TripleAt(s, i);
    if here.Some? {
      assert FirstTriple(s, i) == here;
    } else if i < |s| {
      FirstTripleLeftmost(s, i + 1);
      assert FirstTriple(s, i) == FirstTriple(s, i + 1);
      if FirstTriple(s, i + 1).Some? {
        var p :| i + 1 <= p <= |s| && TripleAt(s, p) == FirstTriple(s, i + 1)
          && forall q :: i + 1 <= q < p ==> TripleAt(s, q).None?;
        forall q | i <= q < p ensures TripleAt(s, q).None? {
          if q != i {
            assert i + 1 <= q < p;
          }
        }
      }
    }
  }

  /** The map step of `semverToTag`: a candidate, or `undefined` (here `None`). */
  function ParseCandidate(ref: string): Option<Candidate> {
    match TagCapture(ref)
    case None => None
    case Some(tag) =>
      match FirstTriple(tag, 0)
      case None => None
      case Some(v) => Some(Candidate(tag, v))
  }

  /**
   * The candidates in ref order. JavaScript's sort moves `undefined` to the end without
   * consulting the comparator, and the filter then drops it, so only these take part.
   */
  function Candidates(refs: seq<string>): seq<Candidate> {
    if refs == [] then []
    else
      match ParseCandidate(refs[0])
      case None => Candidates(refs[1..])
      case Some(c) => [c] + Candidates(refs[1..])
  }

  /** Every candidate comes from a ref, and every ref that yields a candidate is represented. */
  lemma {:induction false} CandidatesFromRefs(refs: seq<string>)
    ensures forall c :: c in Candidates(refs) ==> exists r :: r in refs && ParseCandidate(r) == Some(c)
    ensures forall r :: r in refs && ParseCandidate(r).Some? ==> ParseCandidate(r).value in Candidates(refs)
  {
    if refs != [] {
      CandidatesFromRefs(refs[1..]);
      assert refs == [refs[0]] + refs[1..];
    }
  }

  /** Newest first: the order `sort(rcompare)` produces. */
  ghost predicate SortedDesc(s: seq<Candidate>) {
    forall i, j :: 0 <= i < j < |s| ==> LessEq(s[j].version, s[i].version)
  }

  /** Puts `x` before the first element that is not newer, so it goes ahead of its equals. */
  function Insert(x: Candidate, s: seq<Candidate>): seq<Candidate> {
    if s == [] then [x]
    else if LessEq(s[0].version, x.version) then [x] + s
    else [s[0]] + Insert(x, s[1..])
  }

  /**
   * A stable sort, newest first (Node's `Array.prototype.sort` is stable): among equal versions
   * the earlier ref stays first.
   */
  function SortDesc(cs: seq<Candidate>): seq<Candidate> {
    if cs == [] then [] else Insert(cs[0], SortDesc(cs[1..]))
  }

  /** Inserting adds exactly `x`. */
  lemma {:induction false} InsertMultiset(x: Candidate, s: seq<Candidate>)
    ensures multiset(Insert(x, s)) == multiset(s) + multiset{x}
  {
    if s != [] && !LessEq(s[0].version, x.version) {
      InsertMultiset(x, s[1..]);
      assert s == [s[0]] + s[1..];
    }
  }

  lemma {:induction false} InsertSorted(x: Candidate, s: seq<Candidate>)
    requires SortedDesc(s)
    ensures SortedDesc(Insert(x, s))
  {
    if s == [] {
    } else if LessEq(s[0].version, x.version) {
      InsertAhead(x, s);
    } else {
      InsertSorted(x, s[1..]);
      InsertBehind(x, s);
    }
  }

  lemma InsertAhead(x: Candidate, s: seq<Candidate>)
    requires SortedDesc(s) && s != [] && LessEq(s[0].version, x.version)
    ensures SortedDesc([x] + s)
  {
    var r := [x] + s;
    forall i, j | 0 <= i < j < |r| ensures LessEq(r[j].version, r[i].version) {
      if i == 0 { assert r[j] == s[j - 1]; }
      else { assert r[i] == s[i - 1] && r[j] == s[j - 1]; }
    }
  }

  lemma InsertBehind(x: Candidate, s: seq<Candidate>)
    requires SortedDesc(s) && s != [] && !LessEq(s[0].version, x.version)
    requires SortedDesc(Insert(x, s[1..]))
    ensures SortedDesc([s[0]] + Insert(x, s[1..]))
  {
    InsertBehindBound(x, s);
    ConsSorted(s[0], Insert(x, s[1..]));
  }

  /** Inserting an older `x` behind the head keeps every element no newer than the head. */
  lemma InsertBehindBound(x: Candidate, s: seq<Candidate>)
    requires SortedDesc(s) && s != [] && !LessEq(s[0].version, x.version)
    ensures forall k :: 0 <= k < |Insert(x, s[1..])| ==> LessEq(Insert(x, s[1..])[k].version, s[0].version)
  {
    var tail := Insert(x, s[1..]);
    InsertElements(x, s[1..]);
    LessEqTotal(s[0].version, x.version);
    forall k | 0 <= k < |tail| ensures LessEq(tail[k].version, s[0].version) {
      assert tail[k] in tail;
      if tail[k] != x {
        var m :| 0 <= m < |s[1..]| && s[1..][m] == tail[k];
        assert s[m + 1] == tail[k];
      }
    }
  }

  /** A head no older than every element of a sorted tail gives a sorted sequence. */
  lemma ConsSorted(h: Candidate, tail: seq<Candidate>)
    requires SortedDesc(tail)
    requires forall k :: 0 <= k < |tail| ==> LessEq(tail[k].version, h.version)
    ensures SortedDesc([h] + tail)
  {
    var r := [h] + tail;
    forall i, j | 0 <= i < j < |r| ensures LessEq(r[j].version, r[i].version) {
      if i == 0 { assert r[j] == tail[j - 1]; }
      else { assert r[i] == tail[i - 1] && r[j] == tail[j - 1]; }
    }
  }

  lemma {:induction false} InsertElements(x: Candidate, s: seq<Candidate>)
    ensures forall e :: e in Insert(x, s) ==> e == x || e in s
  {
    if s != [] && !LessEq(s[0].version, x.version) {
      InsertElements(x, s[1..]);
      assert s == [s[0]] + s[1..];
    }
  }

  /** The sort orders newest first and is a permutation of its input. */
  lemma {:induction false} SortDescSpec(cs: seq<Candidate>)
    ensures SortedDesc(SortDesc(cs))
    ensures multiset(SortDesc(cs)) == multiset(cs)
  {
    if cs != [] {
      SortDescSpec(cs[1..]);
      InsertSorted(cs[0], SortDesc(cs[1..]));
      InsertMultiset(cs[0], SortDesc(cs[1..]));
      assert cs == [cs[0]] + cs[1..];
    }
  }

  /** `s[i]` satisfies the range and no candidate before it does. */
  predicate FirstSatisfyingAt(lib: Library, range: string, s: seq<Candidate>, i: int) {
    && 0 <= i < |s|
    && lib.satisfies(s[i].version, range)
    && forall j :: 0 <= j < i ==> !lib.satisfies(s[j].version, range)
  }

  /** The filter-then-`[0]` step: the first candidate whose version satisfies the range. */
  function FirstSatisfying(lib: Library, range: string, s: seq<Candidate>): (r: Option<Candidate>)
    ensures r.Some? ==> r.value in s && lib.satisfies(r.value.version, range)
  {
    if s == [] then None
    else if lib.satisfies(s[0].version, range) then Some(s[0])
    else FirstSatisfying(lib, range, s[1..])
  }

  /**
   * `filter(...)[0]` is nothing exactly when no candidate satisfies the range, and otherwise
   * the first candidate that does.
   */
  lemma {:induction false} FirstSatisfyingSpec(lib: Library, range: string, s: seq<Candidate>)
    ensures var r := FirstSatisfying(lib, range, s);
      && (r.None? <==> forall c :: c in s ==> !lib.satisfies(c.version, range))
      && (r.Some? ==> exists i :: FirstSatisfyingAt(lib, range, s, i) && s[i] == r.value)
  {
    if s != [] {
      if lib.satisfies(s[0].version, range) {
        assert FirstSatisfyingAt(lib, range, s, 0);
      } else {
        var tail := s[1..];
        FirstSatisfyingSpec(lib, range, tail);
        var r := FirstSatisfying(lib, range, tail);
        assert FirstSatisfying(lib, range, s) == r;
        if r.Some? {
          var i :| FirstSatisfyingAt(lib, range, tail, i) && tail[i] == r.value;
          assert FirstSatisfyingAt(lib, range, s, i + 1);
        } else {
          forall c | c in s ensures !lib.satisfies(c.version, range) {
            if c != s[0] {
              assert c in tail;
            }
          }
        }
      }
    }
  }

  /** `util.semverToTag(range, refs)`. */
  function SemverToTag(lib: Library, range: string, refs: seq<string>): Option<Candidate> {
    FirstSatisfying(lib, range, SortDesc(Candidates(refs)))
  }

  /**
   * Reference definition of the winner without sorting: scanning from the back, an earlier
   * satisfying candidate replaces the one found so far unless that one is strictly newer.
   */
  function Best(lib: Library, range: string, cs: seq<Candidate>): Option<Candidate> {
    if cs == [] then None
    else
      var rest := Best(lib, range, cs[1..]);
      if lib.satisfies(cs[0].version, range) && (rest.None? || LessEq(rest.value.version, cs[0].version))
      then Some(cs[0])
      else rest
  }

  lemma {:induction false} FirstSatisfyingInsert(lib: Library, range: string, x: Candidate, s: seq<Candidate>)
    requires SortedDesc(s)
    ensures var f := FirstSatisfying(lib, range, s);
      FirstSatisfying(lib, range, Insert(x, s)) ==
        if lib.satisfies(x.version, range) && (f.None? || LessEq(f.value.version, x.version))
        then Some(x) else f
  {
    if s != [] {
      if LessEq(s[0].version, x.version) {
        var f := FirstSatisfying(lib, range, s);
        if f.Some? {
          var i :| 0 <= i < |s| && s[i] == f.value;
          assert i == 0 || LessEq(s[i].version, s[0].version);
        }
      } else {
        FirstSatisfyingInsert(lib, range, x, s[1..]);
      }
    }
  }

  /** Sorting and taking the first satisfying candidate is the reference definition. */
  lemma {:induction false} SortThenFirstIsBest(lib: Library, range: string, cs: seq<Candidate>)
    ensures FirstSatisfying(lib, range, SortDesc(cs)) == Best(lib, range, cs)
  {
    if cs != [] {
      SortThenFirstIsBest(lib, range, cs[1..]);
      SortDescSpec(cs[1..]);
      FirstSatisfyingInsert(lib, range, cs[0], SortDesc(cs[1..]));
    }
  }

  /**
   * `cs[i]` satisfies the range, no satisfying candidate is newer, and every satisfying
   * candidate before it is strictly older (ties go to the earliest).
   */
  ghost predicate IsBestAt(lib: Library, range: string, cs: seq<Candidate>, i: int) {
    && 0 <= i < |cs|
    && lib.satisfies(cs[i].version, range)
    && (forall j :: 0 <= j < |cs| && lib.satisfies(cs[j].version, range) ==> LessEq(cs[j].version, cs[i].version))
    && (forall j :: 0 <= j < i && lib.satisfies(cs[j].version, range) ==> Less(cs[j].version, cs[i].version))
  }

  lemma {:induction false} BestSpec(lib: Library, range: string, cs: seq<Candidate>)
    ensures Best(lib, range, cs).None? <==> forall j :: 0 <= j < |cs| ==> !lib.satisfies(cs[j].version, range)
    ensures Best(lib, range, cs).Some? ==>
      exists i :: IsBestAt(lib, range, cs, i) && cs[i] == Best(lib, range, cs).value
  {
    if cs != [] {
      var tail := cs[1..];
      var rest := Best(lib, range, tail);
      BestSpec(lib, range, tail);
      assert forall j :: 1 <= j < |cs| ==> cs[j] == tail[j - 1];
      if lib.satisfies(cs[0].version, range) && (rest.None? || LessEq(rest.value.version, cs[0].version)) {
        if rest.Some? {
          var i :| IsBestAt(lib, range, tail, i) && tail[i] == rest.value;
          forall j | 0 <= j < |cs| && lib.satisfies(cs[j].version, range)
            ensures LessEq(cs[j].version, cs[0].version)
          {
            if j > 0 { assert LessEq(tail[j - 1].version, tail[i].version); }
          }
        }
        assert IsBestAt(lib, range, cs, 0);
      } else if rest.Some? {
        var i :| IsBestAt(lib, range, tail, i) && tail[i] == rest.value;
        assert IsBestAt(lib, range, cs, i + 1) by {
          forall j | 0 <= j < |cs| && lib.satisfies(cs[j].version, range)
            ensures LessEq(cs[j].version, cs[i + 1].version)
          {
            if j > 0 { assert LessEq(tail[j - 1].version, tail[i].version); }
          }
        }
      }
    }
  }

  /**
   * `semverToTag` returns a candidate of the refs whose version satisfies the range such that
   * no satisfying candidate is newer and every earlier satisfying one is older; it returns
   * none exactly when no candidate satisfies the range (in particular for empty refs).
   */
  lemma SemverToTagSpec(lib: Library, range: string, refs: seq<string>)
    ensures SemverToTag(lib, range, refs).None? <==>
      forall c :: c in Candidates(refs) ==> !lib.satisfies(c.version, range)
    ensures SemverToTag(lib, range, refs).Some? ==>
      exists i :: IsBestAt(lib, range, Candidates(refs), i)
        && Candidates(refs)[i] == SemverToTag(lib, range, refs).value
    ensures refs == [] ==> SemverToTag(lib, range, refs).None?
  {
    var cs := Candidates(refs);
    SortThenFirstIsBest(lib, range, cs);
    BestSpec(lib, range, cs);
  }

  /** One version satisfying the range is never beaten by an older one. */
  lemma SemverToTagIsNewest(lib: Library, range: string, refs: seq<string>, r: string)
    requires r in refs && ParseCandidate(r).Some?
    requires lib.satisfies(ParseCandidate(r).value.version, range)
    ensures SemverToTag(lib, range, refs).Some?
    ensures LessEq(ParseCandidate(r).value.version, SemverToTag(lib, range, refs).value.version)
  {
    CandidatesFromRefs(refs);
    SemverToTagSpec(lib, range, refs);
    var cs := Candidates(refs);
    var c := ParseCandidate(r).value;
    var j :| 0 <= j < |cs| && cs[j] == c;
    var i :| IsBestAt(lib, range, cs, i) && cs[i] == SemverToTag(lib, range, refs).value;
    assert LessEq(cs[j].version, cs[i].version);
  }

  /**
   * The treeish `getArchive` goes on with: a valid range becomes the matched tag, or fails with
   * the complete ref list; anything else is used as it is.
   */
  function ResolveTreeish(lib: Library, repo: string, treeish: string, refs: seq<string>): Result<string> {
    if lib.validRange(treeish) then
      match SemverToTag(lib, treeish, refs)
      case None => Err(NoMatchingVersion(repo, treeish, refs))
      case Some(m) => Ok(m.tag)
    else Ok(treeish)
  }

  /**
   * A resolved range is the tag of a satisfying candidate of some ref holding
   * "refs/tags/<tag>"; no satisfying candidate means the error with all refs; a non-range
   * treeish is returned unchanged whatever the refs.
   */
  lemma ResolveTreeishSpec(lib: Library, repo: string, treeish: string, refs: seq<string>)
    ensures !lib.validRange(treeish) ==> ResolveTreeish(lib, repo, treeish, refs) == Ok(treeish)
    ensures lib.validRange(treeish) && ResolveTreeish(lib, repo, treeish, refs).Ok? ==>
      exists r, c :: r in refs && ParseCandidate(r) == Some(c)
        && c.tag == ResolveTreeish(lib, repo, treeish, refs).value
        && lib.satisfies(c.version, treeish)
        && exists q :: CapturedAt(r, q, c.tag)
    ensures lib.validRange(treeish) ==>
      (ResolveTreeish(lib, repo, treeish, refs) == Err(NoMatchingVersion(repo, treeish, refs)) <==>
       forall c :: c in Candidates(refs) ==> !lib.satisfies(c.version, treeish))
  {
    SemverToTagSpec(lib, treeish, refs);
    CandidatesFromRefs(refs);
    var m := SemverToTag(lib, treeish, refs);
    if lib.validRange(treeish) && m.Some? {
      var c := m.value;
      assert c in Candidates(refs) by {
        var i :| IsBestAt(lib, treeish, Candidates(refs), i) && Candidates(refs)[i] == c;
      }
      var r :| r in refs && ParseCandidate(r) == Some(c);
      assert TagCapture(r) == Some(c.tag);
      TagCaptureSound(r, 0);
    }
  }

  /**
   * The decision of `needsUpdate(current, range, repo)` once the refs are known: false for a
   * non-range without looking at the refs; for a range, whether the matched tag differs from
   * `current`, and a failure when no tag matches (`.tag` of undefined). `current` is `None`
   * when the stored `treeish` is missing or not a string, which no tag equals.
   */
  function NeedsUpdateDecision(lib: Library, current: Option<string>, range: string, refs: Result<seq<string>>): Result<bool> {
    if !lib.validRange(range) then Ok(false)
    else
      match refs
      case Err(e) => Err(e)
      case Ok(rs) =>
        match SemverToTag(lib, range, rs)
        case None => Err(NoTagForRange(range))
        case Some(m) => Ok(Some(m.tag) != current)
  }

  /** The staleness rule, stated through the matcher's specification. */
  lemma NeedsUpdateSpec(lib: Library, current: Option<string>, range: string, refs: Result<seq<string>>)
    ensures !lib.validRange(range) ==> NeedsUpdateDecision(lib, current, range, refs) == Ok(false)
    ensures lib.validRange(range) && refs.Err? ==> NeedsUpdateDecision(lib, current, range, refs) == Err(refs.error)
    ensures lib.validRange(range) && refs.Ok? ==>
      (NeedsUpdateDecision(lib, current, range, refs) == Err(NoTagForRange(range)) <==>
       forall c :: c in Candidates(refs.value) ==> !lib.satisfies(c.version, range))
    ensures lib.validRange(range) && refs.Ok? && NeedsUpdateDecision(lib, current, range, refs).Ok? ==>
      exists i :: IsBestAt(lib, range, Candidates(refs.value), i)
        && NeedsUpdateDecision(lib, current, range, refs).value == (Some(Candidates(refs.value)[i].tag) != current)
  {
    if refs.Ok? {
      SemverToTagSpec(lib, range, refs.value);
    }
  }
}
