/**
 * The pure helpers of the git handler: reading owner and repository out of a GitHub
 * remote URL, and the commit message and pull-request body written for a sync.
 */
module GitHandler {
  import opened Wrappers
  import opened Text
  import opened Types

  // ---------------------------------------------------------------------------
  // Remote URLs

  /** `{ owner, repo }`. */
  datatype Remote = Remote(owner: string, repo: string)

  const SshPrefix: string := "git@github.com:"
  const HttpsPrefix: string := "https://github.com/"
  const GitSuffix: string := ".git"

  predicate NoLineTerminator(s: string) {
    forall i :: 0 <= i < |s| ==> !IsLineTerminator(s[i])
  }

  /**
   * `(.+?)(?:\.git)?$` on what follows the owner's slash: the shortest non-empty run
   * of non-line-terminators that leaves either `.git` or nothing behind it.
   */
  function RepoOf(tail: string): (r: Option<string>)
    ensures r.None? <==> tail == [] || !NoLineTerminator(tail)
    ensures r.Some? ==> r.value != [] && NoLineTerminator(r.value)
    ensures r.Some? ==> tail == r.value || tail == r.value + GitSuffix
    ensures r.Some? && |tail| > |GitSuffix| && EndsWith(tail, GitSuffix) ==> tail == r.value + GitSuffix
  {
    if tail == [] || !NoLineTerminator(tail) then None
    else if |tail| > |GitSuffix| && EndsWith(tail, GitSuffix) then
      assert tail == tail[..|tail| - |GitSuffix|] + GitSuffix;
      Some(tail[..|tail| - |GitSuffix|])
    else Some(tail)
  }

  /** What a remote pattern captures: an owner without `/`, and a repository name on one line. */
  predicate WellFormed(r: Remote) {
    r.owner != [] && '/' !in r.owner && r.repo != [] && NoLineTerminator(r.repo)
  }

  /**
   * One attempt of a remote pattern where its literal `prefix` occurs at `p`: the owner
   * `([^/]+)` runs to the first `/`, and the repository is what follows, up to the end.
   */
  function MatchRemoteAt(url: string, prefix: string, p: int): (r: Option<Remote>)
    requires OccursAt(url, prefix, p)
    ensures r.Some? ==> WellFormed(r.value)
    ensures r.Some? ==> url[p + |prefix|..] == r.value.owner + "/" + r.value.repo
                        || url[p + |prefix|..] == r.value.owner + "/" + r.value.repo + GitSuffix
  {
    var start := p + |prefix|;
    match IndexOfChar(url, '/', start)
    case None => None
    case Some(j) =>
      if j == start then None
      else
        match RepoOf(url[j + 1..])
        case None => None
        case Some(repo) =>
          assert '/' !in url[start..j] by {
            forall k | 0 <= k < j - start ensures url[start..j][k] != '/' {
              assert url[start..j][k] == url[start + k];
            }
          }
          assert url[start..] == url[start..j] + "/" + url[j + 1..];
          Some(Remote(url[start..j], repo))
  }

  /** `url.match(pattern)`: the leftmost index at which the whole pattern matches. */
  function MatchRemote(url: string, prefix: string, from: nat): (r: Option<Remote>)
    ensures r.Some? ==> WellFormed(r.value)
    ensures r.Some? ==> exists p :: from <= p && OccursAt(url, prefix, p) && MatchRemoteAt(url, prefix, p) == r
    decreases |url| - from
  {
    if from + |prefix| > |url| then None
    else if OccursAt(url, prefix, from) && MatchRemoteAt(url, prefix, from).Some? then MatchRemoteAt(url, prefix, from)
    else MatchRemote(url, prefix, from + 1)
  }

  /** The search returns the attempt at the leftmost occurrence of the prefix, from `from` on, where the pattern matches. */
  lemma {:induction false} MatchRemoteLeftmost(url: string, prefix: string, from: nat, p: nat)
    requires from <= p && OccursAt(url, prefix, p) && MatchRemoteAt(url, prefix, p).Some?
    requires forall q :: from <= q < p && OccursAt(url, prefix, q) ==> MatchRemoteAt(url, prefix, q).None?
    ensures MatchRemote(url, prefix, from) == MatchRemoteAt(url, prefix, p)
    decreases p - from
  {
    assert from + |prefix| <= |url|;
    if from < p {
      assert !(OccursAt(url, prefix, from) && MatchRemoteAt(url, prefix, from).Some?);
      MatchRemoteLeftmost(url, prefix, from + 1, p);
      assert MatchRemote(url, prefix, from) == MatchRemote(url, prefix, from + 1);
    }
  }

  /** Whenever the pattern matches at an occurrence of the prefix from `from` on, the search finds a match. */
  lemma {:induction false} MatchRemoteFinds(url: string, prefix: string, from: nat, p: nat)
    requires from <= p && OccursAt(url, prefix, p) && MatchRemoteAt(url, prefix, p).Some?
    ensures MatchRemote(url, prefix, from).Some?
    decreases p - from
  {
    assert from + |prefix| <= |url|;
    if from < p && !(OccursAt(url, prefix, from) && MatchRemoteAt(url, prefix, from).Some?) {
      MatchRemoteFinds(url, prefix, from + 1, p);
      assert MatchRemote(url, prefix, from) == MatchRemote(url, prefix, from + 1);
    }
  }

  /** A remote pattern fails on a URL exactly when no attempt at any occurrence of its prefix matches. */
  lemma MatchRemoteNoneIff(url: string, prefix: string)
    ensures MatchRemote(url, prefix, 0).None?
            <==> forall p: nat :: OccursAt(url, prefix, p) ==> MatchRemoteAt(url, prefix, p).None?
  {
    if exists p: nat :: OccursAt(url, prefix, p) && MatchRemoteAt(url, prefix, p).Some? {
      var p: nat :| OccursAt(url, prefix, p) && MatchRemoteAt(url, prefix, p).Some?;
      MatchRemoteFinds(url, prefix, 0, p);
    }
  }

  /** `parseGitHubUrl`: the SSH form first, then the HTTPS form, else `null`. */
  function ParseGitHubUrl(url: string): (r: Option<Remote>)
    ensures r.Some? ==> WellFormed(r.value)
    ensures MatchRemote(url, SshPrefix, 0).Some? ==> r == MatchRemote(url, SshPrefix, 0)
    ensures r.None? <==> MatchRemote(url, SshPrefix, 0).None? && MatchRemote(url, HttpsPrefix, 0).None?
  {
    var ssh := MatchRemote(url, SshPrefix, 0);
    if ssh.Some? then ssh else MatchRemote(url, HttpsPrefix, 0)
  }

  /** Without an occurrence of the prefix from `from` on, the pattern does not match. */
  lemma {:induction false} NoPrefixNoMatch(url: string, prefix: string, from: nat)
    requires forall p :: from <= p ==> !OccursAt(url, prefix, p)
    ensures MatchRemote(url, prefix, from).None?
    decreases |url| - from
  {
    if from + |prefix| <= |url| {
      NoPrefixNoMatch(url, prefix, from + 1);
    }
  }

  /** A URL holding neither `git@github.com:` nor `https://github.com/` names no repository. */
  lemma UnknownHostIsNull(url: string)
    requires forall p :: !OccursAt(url, SshPrefix, p)
    requires forall p :: !OccursAt(url, HttpsPrefix, p)
    ensures ParseGitHubUrl(url).None?
  {
    NoPrefixNoMatch(url, SshPrefix, 0);
    NoPrefixNoMatch(url, HttpsPrefix, 0);
  }

  /** The URL a remote is written as, with or without the `.git` suffix. */
  function RemoteUrl(prefix: string, owner: string, repo: string, suffix: string): string {
    prefix + owner + "/" + repo + suffix
  }

  /** A suffix that parses back: `.git`, or none when the name does not itself end in `.git`. */
  predicate RoundTrips(repo: string, suffix: string) {
    suffix == GitSuffix || (suffix == "" && !(|repo| > |GitSuffix| && EndsWith(repo, GitSuffix)))
  }

  /** The pattern matches a remote URL at the prefix it starts with, and captures owner and repository. */
  lemma MatchesAtStart(prefix: string, owner: string, repo: string, suffix: string)
    requires WellFormed(Remote(owner, repo)) && RoundTrips(repo, suffix)
    ensures OccursAt(RemoteUrl(prefix, owner, repo, suffix), prefix, 0)
    ensures MatchRemoteAt(RemoteUrl(prefix, owner, repo, suffix), prefix, 0) == Some(Remote(owner, repo))
  {
    var url := RemoteUrl(prefix, owner, repo, suffix);
    var j := |prefix| + |owner|;
    RemoteUrlLayout(prefix, owner, repo, suffix);
    RepoTailParses(repo, suffix);
    FirstSlash(url, |prefix|, j);
    MatchOfLayout(url, prefix, owner, repo, suffix);
  }

  /** Where the prefix, the owner, `/` and the repository text sit in a remote URL. */
  lemma RemoteUrlLayout(prefix: string, owner: string, repo: string, suffix: string)
    ensures OccursAt(RemoteUrl(prefix, owner, repo, suffix), prefix, 0)
    ensures RemoteUrl(prefix, owner, repo, suffix)[|prefix|..|prefix| + |owner|] == owner
    ensures RemoteUrl(prefix, owner, repo, suffix)[|prefix| + |owner|] == '/'
    ensures RemoteUrl(prefix, owner, repo, suffix)[|prefix| + |owner| + 1..] == repo + suffix
  {
    var url := RemoteUrl(prefix, owner, repo, suffix);
    assert url == prefix + (owner + ("/" + (repo + suffix)));
    assert url[..|prefix|] == prefix;
    assert url[|prefix|..] == owner + ("/" + (repo + suffix));
    assert url[|prefix|..][..|owner|] == owner;
    assert url[|prefix|..][|owner|..] == "/" + (repo + suffix);
  }

  /** The first `/` from `start` on is at `j` when the text between holds none. */
  lemma FirstSlash(url: string, start: nat, j: nat)
    requires start <= j < |url| && url[j] == '/' && '/' !in url[start..j]
    ensures IndexOfChar(url, '/', start) == Some(j)
  {
    forall k | start <= k < j ensures url[k] != '/' {
      assert url[k] == url[start..j][k - start];
    }
  }

  /** The pattern tried at the start of a URL laid out as prefix, owner, `/` and repository text captures owner and repository. */
  lemma MatchOfLayout(url: string, prefix: string, owner: string, repo: string, suffix: string)
    requires OccursAt(url, prefix, 0) && owner != [] && |prefix| + |owner| < |url|
    requires IndexOfChar(url, '/', |prefix|) == Some(|prefix| + |owner|)
    requires url[|prefix|..|prefix| + |owner|] == owner && url[|prefix| + |owner| + 1..] == repo + suffix
    requires RepoOf(repo + suffix) == Some(repo)
    ensures MatchRemoteAt(url, prefix, 0) == Some(Remote(owner, repo))
  {
    MatchRemoteAtFound(url, prefix, 0, |prefix| + |owner|, owner, repo + suffix, repo);
  }

  /** A repository name followed by a suffix that round-trips reads back as that name. */
  lemma RepoTailParses(repo: string, suffix: string)
    requires repo != [] && NoLineTerminator(repo) && RoundTrips(repo, suffix)
    ensures RepoOf(repo + suffix) == Some(repo)
  {
    if suffix == "" {
      assert repo + suffix == repo;
    } else {
      assert EndsWith(repo + suffix, GitSuffix) by {
        assert (repo + suffix)[|repo|..] == suffix;
      }
      forall k | 0 <= k < |repo + suffix| ensures !IsLineTerminator((repo + suffix)[k]) {
        if k >= |repo| {
          assert (repo + suffix)[k] == GitSuffix[k - |repo|];
        }
      }
      assert (repo + suffix)[..|repo|] == repo;
    }
  }

  /** The pattern tried at `p` captures the text up to the first `/` and the repository read from the rest. */
  lemma MatchRemoteAtFound(url: string, prefix: string, p: int, j: nat, owner: string, tail: string, repo: string)
    requires OccursAt(url, prefix, p) && p + |prefix| < j < |url|
    requires IndexOfChar(url, '/', p + |prefix|) == Some(j)
    requires url[p + |prefix|..j] == owner && url[j + 1..] == tail && RepoOf(tail) == Some(repo)
    ensures MatchRemoteAt(url, prefix, p) == Some(Remote(owner, repo))
  {
  }

  /** `git@github.com:owner/repo[.git]` gives back owner and repository. */
  lemma SshRoundTrip(owner: string, repo: string, suffix: string)
    requires WellFormed(Remote(owner, repo)) && RoundTrips(repo, suffix)
    ensures ParseGitHubUrl(RemoteUrl(SshPrefix, owner, repo, suffix)) == Some(Remote(owner, repo))
  {
    MatchesAtStart(SshPrefix, owner, repo, suffix);
  }

  /** No `@`: the SSH pattern, whose prefix holds one, cannot match. */
  lemma NoAtNoSsh(url: string)
    requires '@' !in url
    ensures MatchRemote(url, SshPrefix, 0).None?
  {
    forall p | 0 <= p ensures !OccursAt(url, SshPrefix, p) {
      if p + |SshPrefix| <= |url| {
        assert url[p..p + |SshPrefix|][3] == url[p + 3];
        assert url[p + 3] != '@';
      }
    }
    NoPrefixNoMatch(url, SshPrefix, 0);
  }

  /** `https://github.com/owner/repo[.git]` gives back owner and repository when neither holds an `@`. */
  lemma HttpsRoundTrip(owner: string, repo: string, suffix: string)
    requires WellFormed(Remote(owner, repo)) && RoundTrips(repo, suffix)
    requires '@' !in owner && '@' !in repo
    ensures ParseGitHubUrl(RemoteUrl(HttpsPrefix, owner, repo, suffix)) == Some(Remote(owner, repo))
  {
    var url := RemoteUrl(HttpsPrefix, owner, repo, suffix);
    assert '@' !in HttpsPrefix && '@' !in GitSuffix;
    assert '@' !in url by {
      forall k | 0 <= k < |url| ensures url[k] != '@' {
        if k < |HttpsPrefix| {
          assert url[k] == HttpsPrefix[k];
        } else if k < |HttpsPrefix| + |owner| {
          assert url[k] == owner[k - |HttpsPrefix|];
        } else if k == |HttpsPrefix| + |owner| {
        } else if k < |HttpsPrefix| + |owner| + 1 + |repo| {
          assert url[k] == repo[k - |HttpsPrefix| - |owner| - 1];
        } else {
          assert url[k] == suffix[k - |HttpsPrefix| - |owner| - 1 - |repo|];
        }
      }
    }
    NoAtNoSsh(url);
    MatchesAtStart(HttpsPrefix, owner, repo, suffix);
  }

  /** `git@github.com:o/r.git` and `https://github.com/o/r.git` both name owner `o`, repository `r`. */
  lemma RemoteExamples(ssh: string, https: string)
    requires ssh == "git@github.com:o/r.git" && https == "https://github.com/o/r.git"
    ensures ParseGitHubUrl(ssh) == Some(Remote("o", "r"))
    ensures ParseGitHubUrl(https) == Some(Remote("o", "r"))
  {
    assert ssh == RemoteUrl(SshPrefix, "o", "r", GitSuffix);
    assert https == RemoteUrl(HttpsPrefix, "o", "r", GitSuffix);
    SshRoundTrip("o", "r", GitSuffix);
    HttpsRoundTrip("o", "r", GitSuffix);
  }

  // ---------------------------------------------------------------------------
  // Commit message

  const DefaultCommitMessage: string := "chore: sync Figma icons"
  const DefaultPRBody: string := "This PR was automatically generated by figma-icon-bot."

  /** `value || fallback` for an optional string: absent and empty both fall back. */
  function OrDefault(value: Option<string>, fallback: string): (r: string)
    ensures value.Some? && value.value != "" ==> r == value.value
    ensures value.None? || value.value == "" ==> r == fallback
  {
    if value.Some? && value.value != "" then value.value else fallback
  }

  /** `${kind}: ${n} icon(s)`. */
  function CountLine(kind: string, n: nat): string {
    kind + ": " + NatToString(n) + " icon(s)"
  }

  /** The `details` of `generateCommitMessage`: one line per non-empty list, in the order added, updated, deleted. */
  function CommitDetails(result: SyncResult): (details: seq<string>)
    ensures details == [] <==> result.added == [] && result.updated == [] && result.deleted == []
    ensures |details| == (if result.added != [] then 1 else 0) + (if result.updated != [] then 1 else 0)
                         + (if result.deleted != [] then 1 else 0)
    ensures result.added != [] ==> details[0] == CountLine("Added", |result.added|)
    ensures result.updated != [] ==> details[if result.added != [] then 1 else 0] == CountLine("Updated", |result.updated|)
    ensures result.deleted != [] ==> details[|details| - 1] == CountLine("Deleted", |result.deleted|)
  {
    (if result.added != [] then [CountLine("Added", |result.added|)] else [])
    + (if result.updated != [] then [CountLine("Updated", |result.updated|)] else [])
    + (if result.deleted != [] then [CountLine("Deleted", |result.deleted|)] else [])
  }

  /** `generateCommitMessage`. */
  function CommitMessage(git: GitConfig, result: SyncResult): (r: string)
    ensures StartsWith(r, OrDefault(git.commitMessage, DefaultCommitMessage))
    ensures r == OrDefault(git.commitMessage, DefaultCommitMessage)
            <==> result.added == [] && result.updated == [] && result.deleted == []
  {
    var base := OrDefault(git.commitMessage, DefaultCommitMessage);
    var details := CommitDetails(result);
    if details != [] then
      assert (base + "\n\n" + Join(details, "\n"))[..|base|] == base;
      base + "\n\n" + Join(details, "\n")
    else base
  }

  /** The message depends on the three counts alone: neither `unchanged` nor `errors`, nor the paths, show. */
  lemma CommitMessageCountsOnly(git: GitConfig, r1: SyncResult, r2: SyncResult)
    requires |r1.added| == |r2.added| && |r1.updated| == |r2.updated| && |r1.deleted| == |r2.deleted|
    ensures CommitMessage(git, r1) == CommitMessage(git, r2)
  {
    assert CommitDetails(r1) == CommitDetails(r2);
  }

  /** With only additions, the message is the base, a blank line, and the count, which reads back as the number of added files. */
  lemma CommitMessageOfAdditions(git: GitConfig, result: SyncResult)
    requires result.added != [] && result.updated == [] && result.deleted == []
    ensures var base := OrDefault(git.commitMessage, DefaultCommitMessage);
            var digits := NatToString(|result.added|);
            CommitMessage(git, result) == base + "\n\nAdded: " + digits + " icon(s)"
            && DecimalValue(digits) == |result.added|
  {
    DecimalRoundTrip(|result.added|);
  }

  // ---------------------------------------------------------------------------
  // Pull-request body

  const ChangesHeading: string := "\n\n## Changes\n\n"
  /** A section lists at most this many entries. */
  const MaxListed: nat := 10

  function Min(a: nat, b: nat): nat {
    if a < b then a else b
  }

  /** The lines one after the other. */
  function Concat(lines: seq<string>): string {
    if lines == [] then "" else Concat(lines[..|lines| - 1]) + lines[|lines| - 1]
  }

  /** `### ${title} (${n})`. */
  function Heading(title: string, n: nat): string {
    "### " + title + " (" + NatToString(n) + ")\n"
  }

  function Bullet(entry: string): string {
    "- " + entry + "\n"
  }

  function BulletLines(entries: seq<string>): (lines: seq<string>)
    ensures |lines| == |entries| && forall i :: 0 <= i < |entries| ==> lines[i] == Bullet(entries[i])
  {
    seq(|entries|, i requires 0 <= i < |entries| => Bullet(entries[i]))
  }

  const OverflowLead: string := "- ... and "
  const OverflowTail: string := " more\n"

  /** `- ... and ${n - 10} more` past the tenth entry. */
  function Overflow(n: nat): (r: string)
    ensures r != "" <==> n > MaxListed
  {
    if n > MaxListed then OverflowLead + NatToString(n - MaxListed) + OverflowTail else ""
  }

  /** The overflow line counts the entries left out: its number reads back as `N - 10`. */
  lemma OverflowCountsRest(n: nat)
    requires n > MaxListed
    ensures var digits := NatToString(n - MaxListed);
            Overflow(n) == OverflowLead + digits + OverflowTail && DecimalValue(digits) == n - MaxListed
  {
    DecimalRoundTrip(n - MaxListed);
  }

  /** An Added, Updated or Deleted section: nothing for an empty list. */
  function Section(title: string, entries: seq<string>): (r: string)
    ensures r == "" <==> entries == []
    ensures entries != [] ==> StartsWith(r, Heading(title, |entries|)) && EndsWith(r, Overflow(|entries|) + "\n")
  {
    if entries == [] then ""
    else
      var listed := Concat(BulletLines(entries)[..Min(|entries|, MaxListed)]);
      var r := Heading(title, |entries|) + listed + Overflow(|entries|) + "\n";
      assert r[..|Heading(title, |entries|)|] == Heading(title, |entries|);
      assert r[|r| - |Overflow(|entries|) + "\n"|..] == Overflow(|entries|) + "\n";
      r
  }

  function ErrorLine(e: SyncError): string {
    "- " + e.file + ": " + e.error + "\n"
  }

  function ErrorLines(errors: seq<SyncError>): (lines: seq<string>)
    ensures |lines| == |errors| && forall i :: 0 <= i < |errors| ==> lines[i] == ErrorLine(errors[i])
  {
    seq(|errors|, i requires 0 <= i < |errors| => ErrorLine(errors[i]))
  }

  /** The Errors section lists every error, without a cap. */
  function ErrorsSection(errors: seq<SyncError>): (r: string)
    ensures r == "" <==> errors == []
  {
    if errors == [] then "" else Heading("Errors", |errors|) + Concat(ErrorLines(errors)) + "\n"
  }

  /** The `changes` text of `generatePRBody`: the heading, then the non-empty sections. */
  function Changes(result: SyncResult): string {
    ChangesHeading + Section("Added", result.added) + Section("Updated", result.updated)
    + Section("Deleted", result.deleted) + ErrorsSection(result.errors)
  }

  /** `generatePRBody`, as the text it builds. */
  function PRBody(git: GitConfig, result: SyncResult): (r: string)
    ensures StartsWith(r, OrDefault(git.prBody, DefaultPRBody) + ChangesHeading)
  {
    var base := OrDefault(git.prBody, DefaultPRBody);
    var r := base + Changes(result);
    assert r[..|base + ChangesHeading|] == base + ChangesHeading;
    r
  }

  /** `generatePRBody`: the base body, then the sections, built by appending line after line. */
  method GeneratePRBody(git: GitConfig, result: SyncResult) returns (body: string)
    ensures body == PRBody(git, result)
  {
    var baseBody := OrDefault(git.prBody, DefaultPRBody);
    var changes := ChangesHeading;
    changes := AppendSection(changes, "Added", result.added);
    changes := AppendSection(changes, "Updated", result.updated);
    changes := AppendSection(changes, "Deleted", result.deleted);
    changes := AppendErrors(changes, result.errors);
    body := baseBody + changes;
  }

  /** One Added, Updated or Deleted block of `generatePRBody`. */
  method AppendSection(changes: string, title: string, entries: seq<string>) returns (r: string)
    ensures r == changes + Section(title, entries)
  {
    if |entries| == 0 {
      return changes;
    }
    var block := Heading(title, |entries|);
    var shown := if |entries| < MaxListed then |entries| else MaxListed;
    for i := 0 to shown
      invariant block == Heading(title, |entries|) + Concat(BulletLines(entries)[..i])
    {
      ConcatSnoc(BulletLines(entries), i);
      block := block + Bullet(entries[i]);
    }
    ghost var listed := block;
    assert shown == Min(|entries|, MaxListed);
    if |entries| > MaxListed {
      var digits := NatToString(|entries| - MaxListed);
      block := block + (OverflowLead + digits + OverflowTail);
    }
    SectionOfListed(title, entries, listed, block);
    block := block + "\n";
    r := changes + block;
  }

  /** Appending the next line to the concatenation of a prefix gives the next prefix's. */
  lemma ConcatSnoc(lines: seq<string>, i: nat)
    requires i < |lines|
    ensures Concat(lines[..i + 1]) == Concat(lines[..i]) + lines[i]
  {
    assert lines[..i + 1][..i] == lines[..i];
  }

  /** The listed lines, followed by the overflow line when there is one, make the section without its blank line. */
  lemma SectionOfListed(title: string, entries: seq<string>, listed: string, block: string)
    requires entries != []
    requires listed == Heading(title, |entries|) + Concat(BulletLines(entries)[..Min(|entries|, MaxListed)])
    requires block == listed + Overflow(|entries|)
    ensures Section(title, entries) == block + "\n"
  {
    SectionUnfolds(title, entries);
  }

  lemma SectionUnfolds(title: string, entries: seq<string>)
    requires entries != []
    ensures Section(title, entries)
            == Heading(title, |entries|) + Concat(BulletLines(entries)[..Min(|entries|, MaxListed)]) + Overflow(|entries|) + "\n"
  {
  }

  /** The Errors block of `generatePRBody`. */
  method AppendErrors(changes: string, errors: seq<SyncError>) returns (r: string)
    ensures r == changes + ErrorsSection(errors)
  {
    if |errors| == 0 {
      return changes;
    }
    var block := Heading("Errors", |errors|);
    for i := 0 to |errors|
      invariant block == Heading("Errors", |errors|) + Concat(ErrorLines(errors)[..i])
    {
      assert ErrorLines(errors)[..i + 1][..i] == ErrorLines(errors)[..i];
      block := block + ErrorLine(errors[i]);
    }
    assert ErrorLines(errors)[..|errors|] == ErrorLines(errors);
    block := block + "\n";
    r := changes + block;
  }

  /** Each line sits in the concatenation right after the lines before it. */
  lemma {:induction false} ConcatHoldsLine(lines: seq<string>, k: nat)
    requires k < |lines|
    ensures OccursAt(Concat(lines), lines[k], |Concat(lines[..k])|)
    decreases |lines|
  {
    var n := |lines|;
    var front := lines[..n - 1];
    if k == n - 1 {
      assert front == lines[..k];
      assert Concat(lines) == Concat(lines[..k]) + lines[k];
    } else {
      ConcatHoldsLine(front, k);
      assert front[..k] == lines[..k];
      assert front[k] == lines[k];
      OccursInLonger(Concat(front), lines[k], |Concat(lines[..k])|, [], lines[n - 1]);
      assert Concat(lines) == [] + Concat(front) + lines[n - 1];
    }
  }

  /** An occurrence stays one, shifted, when text is added around it. */
  lemma OccursInLonger(s: string, pat: string, i: int, before: string, after: string)
    requires OccursAt(s, pat, i)
    ensures OccursAt(before + s + after, pat, |before| + i)
  {
    assert (before + s + after)[|before| + i..|before| + i + |pat|] == s[i..i + |pat|];
  }

  /** The `k`-th entry of a section is listed, in order, when it is among the first ten. */
  lemma SectionListsEntry(title: string, entries: seq<string>, k: nat)
    requires k < Min(|entries|, MaxListed)
    ensures OccursAt(Section(title, entries), Bullet(entries[k]),
                     |Heading(title, |entries|)| + |Concat(BulletLines(entries)[..k])|)
  {
    var shown := BulletLines(entries)[..Min(|entries|, MaxListed)];
    var i := |Concat(shown[..k])|;
    ConcatHoldsLine(shown, k);
    assert shown[..k] == BulletLines(entries)[..k];
    var heading, overflow := Heading(title, |entries|), Overflow(|entries|);
    OccursInLonger(Concat(shown), Bullet(entries[k]), i, heading, overflow + "\n");
    AppendAssociates(heading + Concat(shown), overflow, "\n");
    SectionUnfolds(title, entries);
  }

  /** Every error is listed, whatever their number. */
  lemma ErrorsSectionListsEntry(errors: seq<SyncError>, k: nat)
    requires k < |errors|
    ensures OccursAt(ErrorsSection(errors), ErrorLine(errors[k]),
                     |Heading("Errors", |errors|)| + |Concat(ErrorLines(errors)[..k])|)
  {
    ConcatHoldsLine(ErrorLines(errors), k);
    OccursInLonger(Concat(ErrorLines(errors)), ErrorLine(errors[k]), |Concat(ErrorLines(errors)[..k])|,
                   Heading("Errors", |errors|), "\n");
  }

  /** Every error of the report appears in the body as `- file: error`. */
  lemma PRBodyListsErrors(git: GitConfig, result: SyncResult, k: nat)
    requires k < |result.errors|
    ensures Contains(PRBody(git, result), ErrorLine(result.errors[k]))
  {
    var e := ErrorsSection(result.errors);
    var i := |Heading("Errors", |result.errors|)| + |Concat(ErrorLines(result.errors)[..k])|;
    ErrorsSectionListsEntry(result.errors, k);
    var pre := ChangesHeading + Section("Added", result.added) + Section("Updated", result.updated)
               + Section("Deleted", result.deleted);
    OccursInLonger(e, ErrorLine(result.errors[k]), i, pre, "");
    assert pre + e + "" == Changes(result);
    var base := OrDefault(git.prBody, DefaultPRBody);
    OccursInLonger(Changes(result), ErrorLine(result.errors[k]), |pre| + i, base, "");
    assert base + Changes(result) + "" == PRBody(git, result);
  }

  /** The body holds no section when nothing was added, updated, deleted or failed, and only then. */
  lemma PRBodyWithoutChanges(git: GitConfig, result: SyncResult)
    ensures PRBody(git, result) == OrDefault(git.prBody, DefaultPRBody) + ChangesHeading
            <==> result.added == [] && result.updated == [] && result.deleted == [] && result.errors == []
  {
    var a := Section("Added", result.added);
    var u := Section("Updated", result.updated);
    var d := Section("Deleted", result.deleted);
    var e := ErrorsSection(result.errors);
    assert |PRBody(git, result)| == |OrDefault(git.prBody, DefaultPRBody) + ChangesHeading| + |a| + |u| + |d| + |e|;
  }

  /** `unchanged` never shows in the body. */
  lemma PRBodyIgnoresUnchanged(git: GitConfig, result: SyncResult, unchangedFiles: seq<string>)
    ensures PRBody(git, result.(unchangedFiles := unchangedFiles)) == PRBody(git, result)
  {
  }
}
