/** The parser that turns the text printed by `git status` into a branch
    name and a change count (`refresh_status` in src/main.rs). */
module Status {
  import opened Wrappers

  /* ---------------------------------------------------------------------
     Integer widths
     --------------------------------------------------------------------- */

  const I32_MAX: int := 0x7fff_ffff

  /** Rust's `i32`. */
  newtype i32 = x: int | -0x8000_0000 <= x <= I32_MAX

  /** `usize::try_into::<i32>()`: succeeds exactly when the count fits. */
  function TryIntoI32(n: nat): (r: Option<i32>)
    ensures r.Some? <==> n <= I32_MAX
    ensures r.Some? ==> r.value as int == n
  {
    if n <= I32_MAX then Some(n as i32) else None
  }

  /** `try_into().unwrap_or_default()`: the count when it fits, else the
      default `i32`, which is 0. The result is never negative. */
  function ToI32OrZero(n: nat): (r: i32)
    ensures 0 <= r
    ensures n <= I32_MAX ==> r as int == n
    ensures n > I32_MAX ==> r == 0
  {
    match TryIntoI32(n)
    case Some(v) => v
    case None => 0
  }

  /* ---------------------------------------------------------------------
     Change count: the number of tab characters
     --------------------------------------------------------------------- */

  /** `output.matches("\t").count()`: the number of tab characters in `s`,
      which is the multiplicity of '\t' in the multiset of its characters. */
  function CountTabs(s: string): (n: nat)
    ensures n <= |s|
    ensures n == multiset(s)['\t']
  {
    if |s| == 0 then 0
    else
      assert s == [s[0]] + s[1..];
      (if s[0] == '\t' then 1 else 0) + CountTabs(s[1..])
  }

  /** The count is additive over concatenation, so it does not depend on
      how the text is split into lines. */
  lemma {:induction false} CountTabsAppend(a: string, b: string)
    ensures CountTabs(a + b) == CountTabs(a) + CountTabs(b)
    decreases |a|
  {
    if |a| == 0 {
      assert a + b == b;
    } else {
      assert (a + b)[1..] == a[1..] + b;
      CountTabsAppend(a[1..], b);
    }
  }

  /** Replacing one character that is not a tab by another that is not a
      tab leaves the count unchanged: no other character affects it. */
  lemma CountTabsIgnoresOtherChars(s: string, i: nat, c: char)
    requires i < |s|
    requires s[i] != '\t' && c != '\t'
    ensures CountTabs(s[i := c]) == CountTabs(s)
  {
    var t := s[i := c];
    assert s == s[..i] + [s[i]] + s[i+1..];
    assert t == s[..i] + [c] + s[i+1..];
    CountTabsAppend(s[..i] + [s[i]], s[i+1..]);
    CountTabsAppend(s[..i], [s[i]]);
    CountTabsAppend(s[..i] + [c], s[i+1..]);
    CountTabsAppend(s[..i], [c]);
  }

  /** The imperative counterpart of `CountTabs`: one pass over the text. */
  method CountTabsLoop(s: string) returns (n: nat)
    ensures n == multiset(s)['\t']
  {
    n := 0;
    var i := 0;
    while i < |s|
      invariant 0 <= i <= |s|
      invariant n == multiset(s[..i])['\t']
    {
      assert s[..i+1] == s[..i] + [s[i]];
      if s[i] == '\t' {
        n := n + 1;
      }
      i := i + 1;
    }
    assert s[..i] == s;
  }

  /* ---------------------------------------------------------------------
     Branch name: the capture of the regex `branch (?<branch>\w+)`
     --------------------------------------------------------------------- */

  /** The literal part of the pattern, with its single trailing space. */
  const BranchPrefix: string := "branch "

  /** `\w`, restricted to ASCII: letters, digits and underscore. */
  predicate IsWordChar(c: char) {
    ('a' <= c <= 'z') || ('A' <= c <= 'Z') || ('0' <= c <= '9') || c == '_'
  }

  /** All characters of `w` are word characters. */
  predicate AllWordChars(w: string) {
    forall m :: 0 <= m < |w| ==> IsWordChar(w[m])
  }

  /** The regex can start a match at index `k`: the literal "branch "
      begins there and is followed by at least one word character. */
  predicate MatchAt(s: string, k: int) {
    0 <= k && k + |BranchPrefix| < |s|
    && s[k..k + |BranchPrefix|] == BranchPrefix
    && IsWordChar(s[k + |BranchPrefix|])
  }

  /** What the regex engine reports, stated declaratively: `k` is the
      leftmost index where a match starts and `b` is the greedy `\w+`
      after the literal, a non-empty run of word characters that is
      followed by a non-word character or by the end of the text. */
  predicate RegexCaptures(s: string, k: int, b: string) {
    && MatchAt(s, k)
    && (forall j :: 0 <= j < k ==> !MatchAt(s, j))
    && 1 <= |b|
    && k + |BranchPrefix| + |b| <= |s|
    && s[k + |BranchPrefix| .. k + |BranchPrefix| + |b|] == b
    && AllWordChars(b)
    && (k + |BranchPrefix| + |b| == |s| || !IsWordChar(s[k + |BranchPrefix| + |b|]))
  }

  /** The end of the run of word characters that starts at `j`. */
  function WordRunEnd(s: string, j: nat): (e: nat)
    requires j <= |s|
    ensures j <= e <= |s|
    ensures forall m :: j <= m < e ==> IsWordChar(s[m])
    ensures e == |s| || !IsWordChar(s[e])
    decreases |s| - j
  {
    if j == |s| || !IsWordChar(s[j]) then j else WordRunEnd(s, j + 1)
  }

  /** The leftmost index at or after `i` where a match starts, if any. */
  function FindMatch(s: string, i: nat): (r: Option<nat>)
    requires i <= |s|
    ensures r.Some? ==> i <= r.value && MatchAt(s, r.value)
    ensures r.Some? ==> forall j :: i <= j < r.value ==> !MatchAt(s, j)
    ensures r.None? <==> forall j :: i <= j ==> !MatchAt(s, j)
    decreases |s| - i
  {
    if i == |s| then None
    else if MatchAt(s, i) then Some(i)
    else FindMatch(s, i + 1)
  }

  /** `re.captures(&output)` followed by `["branch"]`: the captured branch
      name, or `None` where the source's `unwrap` panics. */
  function ExtractBranch(s: string): (r: Option<string>)
    ensures r.None? <==> forall k :: !MatchAt(s, k)
    ensures r.Some? ==> exists k :: RegexCaptures(s, k, r.value)
  {
    match FindMatch(s, 0)
    case None => None
    case Some(k) =>
      var start := k + |BranchPrefix|;
      var b := s[start .. WordRunEnd(s, start)];
      assert RegexCaptures(s, k, b);
      Some(b)
  }

  /** A run of word characters from `j` to `e` that cannot be extended
      ends where `WordRunEnd` says it does. */
  lemma {:induction false} MaximalRunEnd(s: string, j: nat, e: nat)
    requires j <= e <= |s|
    requires forall m :: j <= m < e ==> IsWordChar(s[m])
    requires e == |s| || !IsWordChar(s[e])
    ensures e == WordRunEnd(s, j)
    decreases e - j
  {
    if j < e {
      MaximalRunEnd(s, j + 1, e);
    }
  }

  /** At most one (start, capture) pair satisfies the declarative reading
      of the regex. */
  lemma CapturesUnique(s: string, k1: int, b1: string, k2: int, b2: string)
    requires RegexCaptures(s, k1, b1) && RegexCaptures(s, k2, b2)
    ensures k1 == k2 && b1 == b2
  {
    assert k1 == k2;
    var start := k1 + |BranchPrefix|;
    MaximalRunEnd(s, start, start + |b1|);
    MaximalRunEnd(s, start, start + |b2|);
  }

  /** `ExtractBranch` is exactly the regex capture: it returns `b` if and
      only if `b` is what the leftmost greedy match captures. */
  lemma ExtractBranchIsRegexCapture(s: string, b: string)
    ensures ExtractBranch(s) == Some(b) <==> exists k :: RegexCaptures(s, k, b)
  {
    if ExtractBranch(s) == Some(b) {
    } else if k :| RegexCaptures(s, k, b) {
      assert MatchAt(s, k);
      var k' :| RegexCaptures(s, k', ExtractBranch(s).value);
      CapturesUnique(s, k, b, k', ExtractBranch(s).value);
    }
  }

  /** A one-pass scanner for the pattern, the way a regex engine walks the
      text: try each start index in turn and, at the first that matches,
      extend the capture greedily. It computes exactly `ExtractBranch`. */
  method ScanBranch(s: string) returns (r: Option<string>)
    ensures r == ExtractBranch(s)
  {
    var n := |BranchPrefix|;
    var i := 0;
    while i + n < |s|
      invariant 0 <= i
      invariant forall j :: 0 <= j < i ==> !MatchAt(s, j)
    {
      if s[i..i + n] == BranchPrefix && IsWordChar(s[i + n]) {
        var e := i + n + 1;
        while e < |s| && IsWordChar(s[e])
          invariant i + n + 1 <= e <= |s|
          invariant forall m :: i + n <= m < e ==> IsWordChar(s[m])
        {
          e := e + 1;
        }
        r := Some(s[i + n .. e]);
        assert RegexCaptures(s, i, r.value);
        ExtractBranchIsRegexCapture(s, r.value);
        return;
      }
      i := i + 1;
    }
    assert forall j :: i <= j ==> !MatchAt(s, j);
    r := None;
  }

  /* ---------------------------------------------------------------------
     The whole parse
     --------------------------------------------------------------------- */

  /** The pure part of `refresh_status`: the branch and the change count
      from the captured text, or `None` where the branch `unwrap` panics. */
  function ParseStatus(output: string): (r: Option<(string, i32)>)
    ensures r.None? <==> forall k :: !MatchAt(output, k)
    ensures r.Some? ==> 1 <= |r.value.0| && AllWordChars(r.value.0)
    ensures r.Some? ==> 0 <= r.value.1
    ensures r.Some? && multiset(output)['\t'] <= I32_MAX ==>
              r.value.1 as int == multiset(output)['\t']
  {
    var numChanges := ToI32OrZero(CountTabs(output));
    match ExtractBranch(output)
    case None => None
    case Some(branch) => Some((branch, numChanges))
  }

  /** A successful parse returns the regex capture together with the
      tab count, for every text. */
  lemma ParseStatusSpec(output: string, b: string, n: i32)
    ensures ParseStatus(output) == Some((b, n)) <==>
              (exists k :: RegexCaptures(output, k, b)) && n == ToI32OrZero(multiset(output)['\t'])
  {
    ExtractBranchIsRegexCapture(output, b);
  }

  /* ---------------------------------------------------------------------
     Worked examples
     --------------------------------------------------------------------- */

  /** No match can start at a character other than 'b'. */
  lemma NoMatchAtNonB(s: string, k: int)
    requires 0 <= k < |s| && s[k] != 'b'
    ensures !MatchAt(s, k)
  {
    if k + |BranchPrefix| < |s| {
      assert s[k..k + |BranchPrefix|][0] == s[k];
    }
  }

  /** A text without the letter 'b' has no match: extraction fails. */
  lemma NoBranchWithoutB(s: string)
    requires 'b' !in s
    ensures ExtractBranch(s).None?
  {
    forall k | 0 <= k < |s| ensures !MatchAt(s, k) {
      NoMatchAtNonB(s, k);
    }
  }

  /** When the text before the first "branch " holds no 'b', the name
      after it is what the regex captures, whatever follows the name as
      long as it does not start with a word character. */
  lemma ExtractBranchAfterPrefix(pre: string, name: string, rest: string)
    requires 'b' !in pre
    requires 1 <= |name| && AllWordChars(name)
    requires |rest| == 0 || !IsWordChar(rest[0])
    ensures ExtractBranch(pre + BranchPrefix + name + rest) == Some(name)
  {
    var s := pre + BranchPrefix + name + rest;
    var k := |pre|;
    forall j | 0 <= j < k ensures !MatchAt(s, j) {
      assert s[j] == pre[j];
      NoMatchAtNonB(s, j);
    }
    assert s[k..k + |BranchPrefix|] == BranchPrefix;
    assert s[k + |BranchPrefix| .. k + |BranchPrefix| + |name|] == name;
    if |rest| > 0 {
      assert s[k + |BranchPrefix| + |name|] == rest[0];
    }
    assert RegexCaptures(s, k, name);
    ExtractBranchIsRegexCapture(s, name);
  }

  /** The branch in the usual output of `git status`. */
  lemma ExtractBranchExample()
    ensures ExtractBranch("On branch main\n\tmodified: a\n\tmodified: b\n") == Some("main")
  {
    var pre, name, rest := "On ", "main", "\n\tmodified: a\n\tmodified: b\n";
    assert pre + BranchPrefix == "On branch ";
    assert pre + BranchPrefix + name == "On branch main";
    assert pre + BranchPrefix + name + rest == "On branch main\n\tmodified: a\n\tmodified: b\n";
    ExtractBranchAfterPrefix(pre, name, rest);
  }

  /** A text without tabs has a change count of zero. */
  lemma CountTabsNone(s: string)
    requires '\t' !in s
    ensures CountTabs(s) == 0
  {
  }

  /** The lines `git status` prints for changed files: each starts with a
      tab and ends with a newline. */
  function FileLines(files: seq<string>): string
  {
    if |files| == 0 then "" else "\t" + files[0] + "\n" + FileLines(files[1..])
  }

  /** A simplified long-format `git status` text on branch `name` with the
      given changed files: the real output also has section headers and
      hint lines, which hold neither a tab nor "branch ". */
  function StatusText(name: string, files: seq<string>): string
  {
    "On " + BranchPrefix + name + "\n" + FileLines(files)
  }

  /** One tab per changed-file line, whatever the file descriptions say as
      long as they hold no tab themselves. */
  lemma {:induction false} CountTabsFileLines(files: seq<string>)
    requires forall i :: 0 <= i < |files| ==> '\t' !in files[i]
    ensures CountTabs(FileLines(files)) == |files|
    decreases |files|
  {
    if |files| > 0 {
      var line := "\t" + files[0] + "\n";
      CountTabsFileLines(files[1..]);
      CountTabsAppend(line, FileLines(files[1..]));
      CountTabsAppend("\t" + files[0], "\n");
      CountTabsAppend("\t", files[0]);
      CountTabsNone(files[0]);
    }
  }

  /** The status text of a branch with `n` changed files has `n` tabs. */
  lemma CountTabsStatusText(name: string, files: seq<string>)
    requires AllWordChars(name)
    requires forall i :: 0 <= i < |files| ==> '\t' !in files[i]
    ensures CountTabs(StatusText(name, files)) == |files|
  {
    var head := "On " + BranchPrefix + name + "\n";
    assert '\t' !in name by {
      forall m | 0 <= m < |name| ensures name[m] != '\t' {
        assert IsWordChar(name[m]);
      }
    }
    assert '\t' !in head;
    CountTabsNone(head);
    CountTabsAppend(head, FileLines(files));
    CountTabsFileLines(files);
  }

  /** The status text of a branch with `n` changed files parses to the
      branch name and `n`. */
  lemma ParseStatusText(name: string, files: seq<string>)
    requires 1 <= |name| && AllWordChars(name)
    requires forall i :: 0 <= i < |files| ==> '\t' !in files[i]
    requires |files| <= I32_MAX
    ensures ParseStatus(StatusText(name, files)) == Some((name, |files| as i32))
  {
    var rest := "\n" + FileLines(files);
    assert StatusText(name, files) == "On " + BranchPrefix + name + rest;
    ExtractBranchAfterPrefix("On ", name, rest);
    CountTabsStatusText(name, files);
  }

  /** `StatusText` renders the simplified output of `git status` on a
      branch with two changed files. */
  lemma StatusTextExample()
    ensures StatusText("main", ["modified: a", "modified: b"])
            == "On branch main\n\tmodified: a\n\tmodified: b\n"
  {
  }

  /** That text, after its two changed files, parses to the branch
      name in it and its count of tabs. */
  lemma ParseStatusTextExample()
    ensures ParseStatus(StatusText("main", ["modified: a", "modified: b"])) == Some(("main", 2))
  {
    ParseStatusText("main", ["modified: a", "modified: b"]);
  }

  /** The output of `git status` on branch main with two changed files
      parses to ("main", 2). */
  lemma ParseStatusExample()
    ensures ParseStatus("On branch main\n\tmodified: a\n\tmodified: b\n") == Some(("main", 2))
  {
    StatusTextExample();
    ParseStatusTextExample();
  }

  /** The capture stops at the first non-word character. */
  lemma ExtractBranchStopsAtSlash()
    ensures ExtractBranch("branch feature/x") == Some("feature")
  {
    assert RegexCaptures("branch feature/x", 0, "feature");
    ExtractBranchIsRegexCapture("branch feature/x", "feature");
  }

  /** The pattern has no word boundary, so a longer word ending in
      "branch" also matches. */
  lemma ExtractBranchNoWordBoundary()
    ensures ExtractBranch("subbranch x") == Some("x")
  {
    var s := "subbranch x";
    forall j | 0 <= j < 3 ensures !MatchAt(s, j) {
      assert s[j + 6] != ' ';
    }
    assert RegexCaptures(s, 3, "x");
    ExtractBranchIsRegexCapture(s, "x");
  }

  /** A "branch " followed by a non-word character is skipped and the
      search continues to the right. */
  lemma ExtractBranchSkipsNonWord()
    ensures ExtractBranch("branch -x branch y") == Some("y")
  {
    var s := "branch -x branch y";
    forall j | 0 <= j < 10 ensures !MatchAt(s, j) {
      if j != 0 {
        assert s[j..j + 7] != BranchPrefix by {
          assert s[j..j + 7][0] == s[j];
        }
      }
    }
    assert RegexCaptures(s, 10, "y");
    ExtractBranchIsRegexCapture(s, "y");
  }

  /** A detached HEAD prints no "branch " at all: the extraction fails. */
  lemma ExtractBranchDetachedHead()
    ensures ExtractBranch("HEAD detached at 1a2c3d\n").None?
  {
    NoBranchWithoutB("HEAD detached at 1a2c3d\n");
  }
}
