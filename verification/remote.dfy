/** What `tsrc push` reads off the `origin` remote URL (the project's
    `namespace/name` and which forge hosts it), and the `git push` command
    line it runs before talking to the forge. */
module Remote {
  import opened Strings

  /** The characters of the regular expression class `[:/]`. */
  predicate IsDelimiter(c: char) {
    c == ':' || c == '/'
  }

  predicate HasNoDelimiter(s: string) {
    forall i :: 0 <= i < |s| ==> !IsDelimiter(s[i])
  }

  /** `re.split("[:/]", url)`: the pieces between delimiters, empty pieces
      included, so a URL with `n` delimiters gives `n + 1` pieces. */
  function SplitUrl(url: string): (parts: seq<string>)
    ensures |parts| >= 1
    ensures forall k :: 0 <= k < |parts| ==> HasNoDelimiter(parts[k])
    decreases |url|
  {
    if |url| == 0 then [""]
    else
      var rest := SplitUrl(url[1..]);
      if IsDelimiter(url[0]) then [""] + rest
      else [[url[0]] + rest[0]] + rest[1..]
  }

  /** A string without delimiters is a single piece. */
  lemma {:induction false} SplitWithoutDelimiter(s: string)
    requires HasNoDelimiter(s)
    ensures SplitUrl(s) == [s]
    decreases |s|
  {
    if |s| > 0 {
      SplitWithoutDelimiter(s[1..]);
      assert [s[0]] + s[1..] == s;
    }
  }

  /** Splitting at one delimiter: the pieces of both sides, side by side. */
  lemma {:induction false} SplitAtDelimiter(a: string, d: char, b: string)
    requires IsDelimiter(d)
    ensures SplitUrl(a + [d] + b) == SplitUrl(a) + SplitUrl(b)
    decreases |a|
  {
    if |a| == 0 {
      assert a + [d] + b == [d] + b;
      assert ([d] + b)[1..] == b;
    } else {
      var tail := a + [d] + b;
      assert tail[1..] == a[1..] + [d] + b;
      SplitAtDelimiter(a[1..], d, b);
    }
  }

  /** `parts[-2:]` */
  function LastTwo(parts: seq<string>): (r: seq<string>)
    requires |parts| >= 1
    ensures 1 <= |r| <= 2 && |r| <= |parts|
    ensures r == parts[|parts| - |r|..]
    ensures |parts| >= 2 <==> |r| == 2
  {
    if |parts| >= 2 then parts[|parts| - 2..] else parts
  }

  /** One trailing `.git` removed, if there is one. */
  function TrimGitSuffix(s: string): (r: string)
    ensures EndsWith(s, ".git") ==> r + ".git" == s
    ensures !EndsWith(s, ".git") ==> r == s
  {
    if EndsWith(s, ".git") then s[..|s| - 4] else s
  }

  /** `project_name_from_url`: the last two pieces of the URL joined by a
      slash, without a trailing `.git`. The name holds no colon and at most
      one slash. */
  function ProjectNameFromUrl(url: string): (name: string)
    ensures forall i :: 0 <= i < |name| ==> name[i] != ':'
    ensures forall i, j :: 0 <= i < j < |name| && name[i] == '/' ==> name[j] != '/'
  {
    var parts := SplitUrl(url);
    var last := LastTwo(parts);
    var joined := Join(last, "/");
    assert |last| == 2 ==> joined == parts[|parts| - 2] + "/" + parts[|parts| - 1] by {
      if |last| == 2 {
        assert last == [parts[|parts| - 2], parts[|parts| - 1]];
        JoinPair(parts[|parts| - 2], parts[|parts| - 1], "/");
      }
    }
    assert |last| == 1 ==> joined == parts[|parts| - 1];
    var name := TrimGitSuffix(joined);
    assert name == joined[..|name|];
    name
  }

  /** When the last two pieces of the split are `group` and `project`, the
      name is `group/project` with one `.git` ending removed from the project. */
  lemma NameOfLastTwoPieces(url: string, group: string, project: string)
    requires |SplitUrl(url)| >= 2
    requires SplitUrl(url)[|SplitUrl(url)| - 2] == group && SplitUrl(url)[|SplitUrl(url)| - 1] == project
    ensures ProjectNameFromUrl(url) == group + "/" + TrimGitSuffix(project)
  {
    var parts := SplitUrl(url);
    assert LastTwo(parts) == [group, project];
    var joined := group + "/" + project;
    JoinPair(group, project, "/");
    GitSuffixOfProject(group, project);
    if EndsWith(project, ".git") {
      assert joined[..|joined| - 4] == group + "/" + project[..|project| - 4];
    }
  }

  /** The name of a remote `<anything><delimiter><group><delimiter><project>`
      is `<group>/<project>`, with a `.git` ending removed from the project,
      whichever of `:` and `/` the two delimiters are. This covers both
      `user@host:group/project.git` and `ssh://user@host:port/group/project.git`. */
  lemma ProjectNameOfRemote(url: string, prefix: string, d: char, group: string, d2: char, project: string)
    requires url == prefix + [d] + group + [d2] + project
    requires IsDelimiter(d) && IsDelimiter(d2) && HasNoDelimiter(group) && HasNoDelimiter(project)
    ensures ProjectNameFromUrl(url) == group + "/" + TrimGitSuffix(project)
  {
    assert url == prefix + [d] + (group + [d2] + project);
    SplitAtDelimiter(prefix, d, group + [d2] + project);
    SplitAtDelimiter(group, d2, project);
    SplitWithoutDelimiter(group);
    SplitWithoutDelimiter(project);
    assert SplitUrl(url) == SplitUrl(prefix) + [group, project];
    NameOfLastTwoPieces(url, group, project);
  }

  /** A remote with a single delimiter, `<group><delimiter><project>`, is
      named `<group>/<project>` too: the delimiter becomes a slash, so
      `host:repo.git` is named `host/repo`. */
  lemma ProjectNameOfTwoPieces(url: string, group: string, d: char, project: string)
    requires url == group + [d] + project
    requires IsDelimiter(d) && HasNoDelimiter(group) && HasNoDelimiter(project)
    ensures ProjectNameFromUrl(url) == group + "/" + TrimGitSuffix(project)
  {
    SplitAtDelimiter(group, d, project);
    SplitWithoutDelimiter(group);
    SplitWithoutDelimiter(project);
    assert SplitUrl(url) == [group, project];
    NameOfLastTwoPieces(url, group, project);
  }

  /** `<group>/<project>` ends in `.git` exactly when the project does, since
      the ending holds no slash. */
  lemma GitSuffixOfProject(group: string, project: string)
    ensures EndsWith(group + "/" + project, ".git") <==> EndsWith(project, ".git")
  {
    var joined := group + "/" + project;
    if |project| >= 4 {
      assert joined[|joined| - 4..] == project[|project| - 4..];
    } else if |joined| >= 4 {
      var tail := joined[|joined| - 4..];
      assert tail[3 - |project|] == joined[|group|] == '/';
      assert ".git"[3 - |project|] != '/';
      assert tail != ".git";
    }
  }

  /** The last two pieces of both documented remotes. */
  lemma FooBarPieces()
    ensures HasNoDelimiter("foo") && HasNoDelimiter("bar.git")
    ensures "foo" + "/" + TrimGitSuffix("bar.git") == "foo/bar"
  {
    assert "bar.git"[..3] == "bar";
  }

  /** The SCP-style remote named in the documentation of
      `project_name_from_url`. The URL is a parameter pinned by the
      precondition rather than a literal argument, so that the verifier does
      not unfold the split character by character. */
  lemma ScpRemoteExample(url: string)
    requires url == "git@example.com:foo/bar.git"
    ensures ProjectNameFromUrl(url) == "foo/bar"
  {
    FooBarPieces();
    assert url == "git@example.com" + [':'] + "foo" + ['/'] + "bar.git";
    ProjectNameOfRemote(url, "git@example.com", ':', "foo", '/', "bar.git");
  }

  /** The URL-style remote with a port named in the documentation of
      `project_name_from_url`: the port does not leak into the name. The URL
      is pinned by the precondition, as in `ScpRemoteExample`. */
  lemma SshRemoteExample(url: string)
    requires url == "ssh://git@example.com:8022/foo/bar.git"
    ensures ProjectNameFromUrl(url) == "foo/bar"
  {
    FooBarPieces();
    assert url == "ssh://git@example.com:8022" + ['/'] + "foo" + ['/'] + "bar.git";
    ProjectNameOfRemote(url, "ssh://git@example.com:8022", '/', "foo", '/', "bar.git");
  }

  /** Appending `.git` to a delimiter-free string keeps it delimiter-free. */
  lemma AppendGitKeepsNoDelimiter(s: string)
    requires HasNoDelimiter(s)
    ensures HasNoDelimiter(s + ".git")
  {
    var t := s + ".git";
    forall i | 0 <= i < |t|
      ensures !IsDelimiter(t[i])
    {
      if i >= |s| {
        assert t[i] == ".git"[i - |s|];
      }
    }
  }

  /** A URL without any delimiter is a single piece, kept apart from one
      `.git` ending. */
  lemma ProjectNameOfPiece(s: string)
    requires HasNoDelimiter(s)
    ensures ProjectNameFromUrl(s) == TrimGitSuffix(s)
  {
    SplitWithoutDelimiter(s);
    assert LastTwo([s]) == [s];
  }

  /** A delimiter-free name with `.git` appended loses exactly that ending. */
  lemma ProjectNameOfGitPiece(s: string)
    requires HasNoDelimiter(s)
    ensures ProjectNameFromUrl(s + ".git") == s
  {
    var s1 := s + ".git";
    AppendGitKeepsNoDelimiter(s);
    ProjectNameOfPiece(s1);
    assert EndsWith(s1, ".git") && s1[..|s1| - 4] == s;
  }

  /** A URL without any delimiter keeps its text, apart from one `.git`
      ending: only one ending is ever removed. */
  lemma ProjectNameWithoutDelimiter(s: string)
    requires HasNoDelimiter(s)
    ensures ProjectNameFromUrl(s) == TrimGitSuffix(s)
    ensures ProjectNameFromUrl(s + ".git") == s
    ensures ProjectNameFromUrl(s + ".git" + ".git") == s + ".git"
  {
    ProjectNameOfPiece(s);
    ProjectNameOfGitPiece(s);
    AppendGitKeepsNoDelimiter(s);
    ProjectNameOfGitPiece(s + ".git");
  }

  /** The forge kinds `tsrc push` can talk to. */
  datatype Service = GitHub | GitLab

  /** `get_service`: GitHub exactly when "github" occurs anywhere in the URL;
      GitLab is the fallback, never detected positively. */
  function GetService(url: string): (s: Service)
    ensures s == GitHub <==> IsSubstring("github", url)
    ensures s == GitLab <==> !IsSubstring("github", url)
  {
    if Contains(url, "github") then GitHub else GitLab
  }

  /** The arguments `git_push` hands to git: push the branch to the branch of
      the same name on `origin`, set it as upstream, and add `--force` when
      asked. */
  function GitPushArgs(sourceBranch: string, force: bool): (argv: seq<string>)
    ensures |argv| == 4 || |argv| == 5
    ensures argv[..3] == ["push", "-u", "origin"]
    ensures argv[3] == sourceBranch + ":" + sourceBranch
    ensures |argv| == 5 <==> force
    ensures |argv| == 5 ==> argv[4] == "--force"
  {
    ["push", "-u", "origin", sourceBranch + ":" + sourceBranch] + (if force then ["--force"] else [])
  }

  /** How git reads a `<src>:<dst>` refspec: split at the first colon. */
  function SplitRefspec(spec: string): (r: Option<(string, string)>)
    ensures r.None? <==> forall i :: 0 <= i < |spec| ==> spec[i] != ':'
    ensures r.Some? ==> r.value.0 + ":" + r.value.1 == spec
    ensures r.Some? ==> forall i :: 0 <= i < |r.value.0| ==> r.value.0[i] != ':'
    decreases |spec|
  {
    if |spec| == 0 then None
    else if spec[0] == ':' then
      assert ":" + spec[1..] == spec;
      Some(("", spec[1..]))
    else
      match SplitRefspec(spec[1..])
      case None => None
      case Some((src, dst)) =>
        assert [spec[0]] + src + ":" + dst == spec;
        Some(([spec[0]] + src, dst))
  }

  /** How git itself reads the refspec `git_push` builds (this is git's
      reading, not code of the command): for a branch name, which git forbids
      to hold a colon, the refspec names that branch on both sides, so the
      push targets the same-named remote branch. */
  lemma PushTargetsSameBranch(sourceBranch: string, force: bool)
    requires forall i :: 0 <= i < |sourceBranch| ==> sourceBranch[i] != ':'
    ensures SplitRefspec(GitPushArgs(sourceBranch, force)[3]) == Some((sourceBranch, sourceBranch))
  {
    var spec := sourceBranch + ":" + sourceBranch;
    var r := SplitRefspec(spec);
    assert spec[|sourceBranch|] == ':';
    var src := r.value.0;
    var dst := r.value.1;
    assert src + ":" + dst == spec;
    assert spec[|src|] == ':';
    assert forall i :: 0 <= i < |src| ==> spec[i] == src[i];
    assert |src| == |sourceBranch|;
    assert src == spec[..|src|] == sourceBranch;
    assert dst == spec[|src| + 1..] == sourceBranch;
  }
}
