/**
 * Ref handling in src/util.js that does not depend on versions: the GitHub short name, the
 * parsing of `git ls-remote` and `git show-ref` output, the backend choice, and the two
 * decisions `_getArchiveGit` takes (shallow clone, tag fetch).
 */
module GitRefs {
  import opened Common
  import opened Text

  /**
   * Where `/github.com\//` matches: "github", any one character a `.` can match, "com/".
   * The dot of the pattern is a wildcard, so "githubXcom/" matches too.
   */
  predicate GithubComAt(s: string, i: int) {
    && 0 <= i && i + 11 <= |s|
    && s[i..i + 6] == "github" && !IsLineTerminator(s[i + 6]) && s[i + 7..i + 11] == "com/"
  }

  /** The first position at or after `from` where `GithubComAt` holds. */
  function FirstGithubCom(s: string, from: nat): (r: Option<nat>)
    ensures r.Some? ==> from <= r.value && GithubComAt(s, r.value)
    ensures r.Some? ==> forall j :: from <= j < r.value ==> !GithubComAt(s, j)
    ensures r.None? ==> forall j :: from <= j ==> !GithubComAt(s, j)
    decreases |s| - from
  {
    if from + 11 > |s| then None
    else if GithubComAt(s, from) then Some(from)
    else FirstGithubCom(s, from + 1)
  }

  /** The start of the line holding position `q`: just after the last line terminator before it. */
  function LineStart(s: string, q: nat): (r: nat)
    requires q <= |s|
    ensures r <= q && (r == 0 || IsLineTerminator(s[r - 1]))
    ensures forall k :: r <= k < q ==> !IsLineTerminator(s[k])
  {
    if q == 0 || IsLineTerminator(s[q - 1]) then q else LineStart(s, q - 1)
  }

  /**
   * `repo.replace(/.*?github.com\//, '')`: the leftmost match starts at the beginning of the line
   * holding the first "github?com/" (the lazy `.*?` cannot cross a line terminator) and ends
   * after it.
   */
  function DropThroughGithubCom(repo: string): string {
    match FirstGithubCom(repo, 0)
    case None => repo
    case Some(q) => repo[..LineStart(repo, q)] + repo[q + 11..]
  }

  /** `util.githubShortName`. */
  function GithubShortName(repo: string): string {
    RemoveSuffix(DropThroughGithubCom(repo), ".git")
  }

  /**
   * On a one-line string the short name is what follows the first "github.com/", less one
   * trailing ".git"; a string with no such match only loses a trailing ".git".
   */
  lemma GithubShortNameSpec(repo: string, q: nat)
    requires forall k :: 0 <= k < |repo| ==> !IsLineTerminator(repo[k])
    ensures (forall j :: 0 <= j ==> !GithubComAt(repo, j)) ==>
      GithubShortName(repo) == RemoveSuffix(repo, ".git")
    ensures GithubComAt(repo, q) && (forall j :: 0 <= j < q ==> !GithubComAt(repo, j)) ==>
      GithubShortName(repo) == RemoveSuffix(repo[q + 11..], ".git")
  {
    var f := FirstGithubCom(repo, 0);
    if f.Some? {
      assert LineStart(repo, f.value) == 0;
      assert repo[..0] + repo[f.value + 11..] == repo[f.value + 11..];
      if GithubComAt(repo, q) && (forall j :: 0 <= j < q ==> !GithubComAt(repo, j)) {
        assert f.value == q;
      }
    }
  }

  /** The shorthand expansion `git://github.com/<key>.git` shortens back to `key`. */
  lemma ExpandedShortName(key: string)
    ensures GithubShortName("git://github.com/" + key + ".git") == key
  {
    var s := "git://github.com/" + key + ".git";
    FirstMatchOfExpanded(key);
    assert LineStart(s, 6) == 0 by {
      assert forall k :: 0 <= k < 6 ==> s[k] == "git://"[k];
    }
    assert s[..0] + s[17..] == key + ".git";
    assert (key + ".git")[|key|..] == ".git";
    assert (key + ".git")[..|key|] == key;
  }

  /** In the expansion, the first "github?com/" is the one after "git://". */
  lemma FirstMatchOfExpanded(key: string)
    ensures FirstGithubCom("git://github.com/" + key + ".git", 0) == Some(6)
  {
    var s := "git://github.com/" + key + ".git";
    GithubComInExpanded(key);
    var r := FirstGithubCom(s, 0);
    assert r.Some?;
    assert r.value <= 6;
  }

  lemma GithubComInExpanded(key: string)
    ensures GithubComAt("git://github.com/" + key + ".git", 6)
    ensures forall j :: 0 <= j < 6 ==> !GithubComAt("git://github.com/" + key + ".git", j)
  {
    var p := "git://github.com/";
    var s := p + key + ".git";
    assert forall k :: 0 <= k < |p| ==> s[k] == p[k];
    assert s[6..12] == "github" && s[12] == '.' && s[13..17] == "com/";
    forall j | 0 <= j < 6 ensures !GithubComAt(s, j) {
      assert s[j..j + 6][0] == s[j] && s[j..j + 6][3] == s[j + 3];
    }
  }

  /** `data.split('\n').map(line => line.split(sep).pop())`. */
  function ParseLines(data: string, sep: char): seq<string> {
    var lines := Split(data, '\n');
    seq(|lines|, i requires 0 <= i < |lines| => LastField(lines[i], sep))
  }

  /** `_refsGit` parsing of `git ls-remote` output: the field after the last tab of each line. */
  function ParseLsRemote(data: string): seq<string> {
    ParseLines(data, '\t')
  }

  /**
   * One element per newline-separated line (a trailing newline gives a final ""), each the
   * text after its line's last separator, or the whole line when it has none.
   */
  lemma ParseLinesSpec(data: string, sep: char)
    ensures |ParseLines(data, sep)| == Count(data, '\n') + 1
    ensures forall i :: 0 <= i < |ParseLines(data, sep)| ==> FieldOfLine(Split(data, '\n')[i], sep, ParseLines(data, sep)[i])
  {
    SplitLength(data, '\n');
    SplitJoin(data, '\n');
    var lines := Split(data, '\n');
    forall i | 0 <= i < |lines| ensures FieldOfLine(lines[i], sep, ParseLines(data, sep)[i]) {
      FieldOfOneLine(lines[i], sep);
    }
  }

  /** On a single line, `LastField` is what `line.split(sep).pop()` must give. */
  lemma FieldOfOneLine(line: string, sep: char)
    requires '\n' !in line
    ensures FieldOfLine(line, sep, LastField(line, sep))
  {
    var field := LastField(line, sep);
    LastFieldSpec(line, sep);
    assert forall k :: 0 <= k < |field| ==> field[k] == line[|line| - |field| + k];
  }

  /** `field` is what `line.split(sep).pop()` must give. */
  ghost predicate FieldOfLine(line: string, sep: char, field: string) {
    && '\n' !in field && sep !in field
    && |field| <= |line| && line[|line| - |field|..] == field
    && (sep !in line ==> field == line)
    && (sep in line ==> |field| < |line| && line[|line| - |field| - 1] == sep)
  }

  /** A `<sha> <ref>` line of `git show-ref` gives `<ref>` when the ref holds no space. */
  lemma ShowRefLine(sha: string, ref: string)
    requires ' ' !in ref
    ensures LastField(sha + " " + ref, ' ') == ref
  {
    var line := sha + " " + ref;
    var r := LastField(line, ' ');
    LastFieldSpec(line, ' ');
    assert line[|sha|] == ' ';
    assert line[|line| - |ref|..] == ref;
  }

  /** The two ways to query refs and fetch archives. */
  datatype Backend = GithubApi | GitRemote

  /** `repo.search(/github/) !== -1` picks the GitHub API. */
  function BackendFor(repo: string): (b: Backend)
    ensures b == GithubApi <==> Contains(repo, "github")
  {
    if Contains(repo, "github") then GithubApi else GitRemote
  }

  /** `refs.filter(ref => ref === 'refs/heads/' + t || ref === 'refs/tags/' + t).length`. */
  function KnownRefCount(refs: seq<string>, treeish: string): nat {
    if refs == [] then 0
    else
      (if refs[0] == "refs/heads/" + treeish || refs[0] == "refs/tags/" + treeish then 1 else 0)
      + KnownRefCount(refs[1..], treeish)
  }

  /** `isRef` is truthy: a shallow `--depth 1` clone is enough. */
  function UseShallowClone(refs: seq<string>, treeish: string): bool {
    KnownRefCount(refs, treeish) > 0
  }

  /** The clone is shallow exactly when the treeish is a known branch or tag. */
  lemma {:induction false} ShallowIffKnownRef(refs: seq<string>, treeish: string)
    ensures UseShallowClone(refs, treeish) <==>
      ("refs/heads/" + treeish in refs || "refs/tags/" + treeish in refs)
  {
    if refs != [] {
      ShallowIffKnownRef(refs[1..], treeish);
      assert refs == [refs[0]] + refs[1..];
    }
  }

  /** `refs.indexOf('refs/tags/' + treeish) === -1` on the parsed `git show-ref` output. */
  function NeedsTagFetch(showRefOutput: string, treeish: string): bool {
    "refs/tags/" + treeish !in ParseLines(showRefOutput, ' ')
  }

  /** A local `<sha> refs/tags/<treeish>` line means the tags are not fetched again. */
  lemma ListedTagNotFetched(showRefOutput: string, treeish: string, i: nat, sha: string)
    requires ' ' !in treeish
    requires i < |Split(showRefOutput, '\n')|
    requires Split(showRefOutput, '\n')[i] == sha + " refs/tags/" + treeish
    ensures !NeedsTagFetch(showRefOutput, treeish)
  {
    ShowRefLine(sha, "refs/tags/" + treeish);
    assert sha + " " + ("refs/tags/" + treeish) == sha + " refs/tags/" + treeish;
    assert ParseLines(showRefOutput, ' ')[i] == "refs/tags/" + treeish;
  }
}
