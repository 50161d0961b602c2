/** The comparison of sgx-enclave/src/utils/code-integrity.js: the enclave's own files against the
    published archive. The file system, the download and SHA-256 are parameters. */
module CodeIntegrity {
  import opened Tables
  import opened Tar
  import opened TarArchive

  const EXCLUDE_PREFIXES := ["/lib", "/usr/", "/bin", "/etc/", "{{ gramine."]
  const REPO_APP_SUBDIR := "sgx-enclave"
  const REQUIRED_REPO_FILE := "sgx-enclave/package-lock.json"

  predicate Includes(s: Bytes, part: Bytes) {
    part <= s || (s != [] && Includes(s[1..], part))
  }

  predicate IsAppEntry(p: Bytes, appRoot: Bytes) {
    && !Includes(p, "{{") && !Includes(p, "}}")
    && !(appRoot + "/node_modules" <= p)
    && (forall i :: 0 <= i < |EXCLUDE_PREFIXES| ==> !(EXCLUDE_PREFIXES[i] <= p))
    && !Includes(p, "__TRUSTED_LIBS_PLACEHOLDER__")
  }

  /** The files that application entries stand for; a directory entry stands for those found below it. */
  function LocalFiles(entries: seq<Bytes>, appRoot: Bytes, expand: Bytes -> seq<Bytes>): seq<Bytes> {
    if entries == [] then []
    else (if IsAppEntry(entries[0], appRoot) then expand(entries[0]) else []) + LocalFiles(entries[1..], appRoot, expand)
  }

  function RepoPath(enclavePath: Bytes, appRoot: Bytes): Bytes {
    if appRoot + "/" <= enclavePath then REPO_APP_SUBDIR + "/" + enclavePath[|appRoot| + 1..] else enclavePath
  }

  function LocalHashes(files: seq<Bytes>, appRoot: Bytes, hashOf: Bytes -> Bytes): map<Bytes, Bytes> {
    if files == [] then map[]
    else
      var last := files[|files| - 1];
      LocalHashes(files[..|files| - 1], appRoot, hashOf)[RepoPath(last, appRoot) := hashOf(last)]
  }

  predicate SubMap(local: map<Bytes, Bytes>, remote: map<Bytes, Bytes>) {
    forall p :: p in local ==> p in remote && remote[p] == local[p]
  }

  datatype Reason = MissingRequired | MissingInRemote(count: nat) | Mismatch(count: nat)

  /** Failed: the check threw, by an empty manifest, a failed download or a corrupt archive. */
  datatype Verdict = Verified(fileCount: nat) | Rejected(fileCount: nat, reason: Reason) | Failed

  /** When the running code counts as the published code. */
  ghost predicate Matches(local: map<Bytes, Bytes>, download: Option<Bytes>, sha: Bytes -> Bytes) {
    && REQUIRED_REPO_FILE in local
    && download.Some?
    && var parsed := ParseTar(download.value, sha); parsed.Files? && SubMap(local, parsed.files)
  }

  // ---- which files are checked -----------------------------------------------------------

  predicate Absolute(p: Bytes) {
    p != [] && p[0] == '/'
  }

  ghost predicate Occurs(part: Bytes, s: Bytes) {
    exists before, after :: s == before + part + after
  }

  /** The filter's text search is what it says: somewhere in the text, the part. */
  lemma {:induction false} IncludesIff(s: Bytes, part: Bytes)
    ensures Includes(s, part) <==> Occurs(part, s)
  {
    if part <= s {
      assert s == [] + part + s[|part|..];
    } else if s != [] {
      IncludesIff(s[1..], part);
      if Includes(s[1..], part) {
        var before, after :| s[1..] == before + part + after;
        assert s == ([s[0]] + before) + part + after;
      }
      if before, after :| s == before + part + after {
        assert before != [];
        assert s[1..] == before[1..] + part + after;
      }
    } else {
      assert forall before, after :: |before + part + after| >= |part|;
    }
  }

  /** Entries that are not application code: templates and placeholders, installed modules, system files. */
  ghost predicate LeftOut(p: Bytes, appRoot: Bytes) {
    || Occurs("{{", p) || Occurs("}}", p) || Occurs("__TRUSTED_LIBS_PLACEHOLDER__", p)
    || appRoot + "/node_modules" <= p
    || "/lib" <= p || "/usr/" <= p || "/bin" <= p || "/etc/" <= p || "{{ gramine." <= p
  }

  lemma AppEntryIff(p: Bytes, appRoot: Bytes)
    ensures IsAppEntry(p, appRoot) <==> !LeftOut(p, appRoot)
  {
    hide Includes, Occurs;
    IncludesIff(p, "{{");
    IncludesIff(p, "}}");
    IncludesIff(p, "__TRUSTED_LIBS_PLACEHOLDER__");
    assert EXCLUDE_PREFIXES[0] == "/lib" && EXCLUDE_PREFIXES[1] == "/usr/" && EXCLUDE_PREFIXES[2] == "/bin"
        && EXCLUDE_PREFIXES[3] == "/etc/" && EXCLUDE_PREFIXES[4] == "{{ gramine.";
  }

  /** A file is checked exactly when an entry that is not left out stands for it. */
  lemma {:induction false} CheckedFiles(entries: seq<Bytes>, appRoot: Bytes, expand: Bytes -> seq<Bytes>, f: Bytes)
    ensures f in LocalFiles(entries, appRoot, expand)
      <==> exists i :: 0 <= i < |entries| && !LeftOut(entries[i], appRoot) && f in expand(entries[i])
  {
    hide IsAppEntry, LeftOut;
    if entries != [] {
      var rest := entries[1..];
      CheckedFiles(rest, appRoot, expand, f);
      AppEntryIff(entries[0], appRoot);
      if i :| 0 <= i < |rest| && !LeftOut(rest[i], appRoot) && f in expand(rest[i]) {
        assert !LeftOut(entries[i + 1], appRoot) && f in expand(entries[i + 1]);
      }
      if i :| 1 <= i < |entries| && !LeftOut(entries[i], appRoot) && f in expand(entries[i]) {
        assert !LeftOut(rest[i - 1], appRoot) && f in expand(rest[i - 1]);
      }
    }
  }

  /** Text without a template mark and without the placeholder. */
  ghost predicate Plain(p: Bytes) {
    !Occurs("{{", p) && !Occurs("}}", p) && !Occurs("__TRUSTED_LIBS_PLACEHOLDER__", p)
  }

  /** An application root: absolute, plain, and not among the system files. */
  ghost predicate IsRoot(appRoot: Bytes) {
    && Absolute(appRoot) && Plain(appRoot)
    && !("/lib" <= appRoot + "/") && !("/usr/" <= appRoot + "/")
    && !("/bin" <= appRoot + "/") && !("/etc/" <= appRoot + "/")
  }

  /** What has no slash does not straddle one. */
  lemma OccursOnOneSide(part: Bytes, a: Bytes, b: Bytes)
    requires '/' !in part && Occurs(part, a + "/" + b)
    ensures Occurs(part, a) || Occurs(part, b)
  {
    var s := a + "/" + b;
    var before, after :| s == before + part + after;
    forall i | |before| <= i < |before + part| ensures s[i] != '/' {
      assert s[i] == part[i - |before|];
    }
    assert s[|a|] == '/';
    if |before + part| <= |a| {
      assert a == before + part + a[|before + part|..] by {
        assert s[..|before + part|] == before + part;
      }
    } else if |a| < |before| {
      assert b == before[|a| + 1..] + part + after by {
        assert s[|a| + 1..] == b;
        assert (before + part + after)[|a| + 1..] == before[|a| + 1..] + part + after;
      }
    } else {
      assert false;
    }
  }

  lemma SystemPrefixEndsAtRoot(appRoot: Bytes, rest: Bytes, prefix: Bytes)
    requires Absolute(appRoot) && forall i :: 0 < i < |prefix| - 1 ==> prefix[i] != '/'
    ensures prefix <= appRoot + "/" + rest <==> prefix <= appRoot + "/"
  {
    var p, top := appRoot + "/" + rest, appRoot + "/";
    assert p[..|top|] == top;
    if prefix <= p {
      if |prefix| > |appRoot| {
        assert prefix[|appRoot|] == p[|appRoot|] == '/';
      }
      assert prefix == p[..|prefix|] == top[..|prefix|];
    }
    if prefix <= top {
      assert prefix == top[..|prefix|] == p[..|prefix|];
    }
  }

  lemma PrefixBelowRoot(appRoot: Bytes, rest: Bytes, first: Bytes)
    ensures appRoot + "/" + first <= appRoot + "/" + rest <==> first <= rest
  {
    var top := appRoot + "/";
    assert (top + rest)[|top|..] == rest && (top + first)[|top|..] == first;
    if first <= rest {
      assert top + rest == top + first + rest[|first|..];
    }
    if top + first <= top + rest {
      assert forall i :: 0 <= i < |first| ==> first[i] == (top + first)[|top| + i] == (top + rest)[|top| + i] == rest[i];
    }
  }

  lemma PlainBelowRoot(appRoot: Bytes, rest: Bytes)
    requires Plain(appRoot) && Plain(rest)
    ensures Plain(appRoot + "/" + rest)
  {
    var p := appRoot + "/" + rest;
    hide Occurs;
    forall part | part in {"{{", "}}", "__TRUSTED_LIBS_PLACEHOLDER__"} ensures Occurs(part, p) ==> Occurs(part, appRoot) || Occurs(part, rest) {
      if Occurs(part, p) {
        OccursOnOneSide(part, appRoot, rest);
      }
    }
  }

  /** Everything below the application root is checked, but for templates and what is below node_modules. */
  lemma EntryBelowRoot(appRoot: Bytes, rest: Bytes)
    requires IsRoot(appRoot) && Plain(rest)
    ensures LeftOut(appRoot + "/" + rest, appRoot) <==> "node_modules" <= rest
  {
    hide Occurs;
    PlainBelowRoot(appRoot, rest);
    PrefixBelowRoot(appRoot, rest, "node_modules");
    assert appRoot + "/" + "node_modules" == appRoot + "/node_modules";
    SystemPrefixEndsAtRoot(appRoot, rest, "/lib");
    SystemPrefixEndsAtRoot(appRoot, rest, "/usr/");
    SystemPrefixEndsAtRoot(appRoot, rest, "/bin");
    SystemPrefixEndsAtRoot(appRoot, rest, "/etc/");
    assert (appRoot + "/" + rest)[0] == '/' != "{{ gramine."[0];
  }

  /** The archive read from the download has this file with this hash. */
  ghost predicate ArchivedAs(download: Option<Bytes>, sha: Bytes -> Bytes, path: Bytes, hash: Bytes) {
    download.Some? && var parsed := ParseTar(download.value, sha);
    parsed.Files? && path in parsed.files && parsed.files[path] == hash
  }

  ghost predicate AllAbsolute(entries: seq<Bytes>, expand: Bytes -> seq<Bytes>) {
    forall e, f :: e in entries && f in expand(e) ==> Absolute(f)
  }

  /** A file of the application, by its path below the root: an entry below the root stands for it. */
  ghost predicate OfApplication(entries: seq<Bytes>, appRoot: Bytes, expand: Bytes -> seq<Bytes>, below: Bytes) {
    exists rest :: Plain(rest) && !("node_modules" <= rest) && appRoot + "/" + rest in entries
                && appRoot + "/" + below in expand(appRoot + "/" + rest)
  }

  /** A file below the root goes by its path below sgx-enclave in the repository, any other by its own. */
  lemma RepoPathIs(f: Bytes, appRoot: Bytes, below: Bytes)
    ensures f == appRoot + "/" + below ==> RepoPath(f, appRoot) == "sgx-enclave/" + below
    ensures !(appRoot + "/" <= f) ==> RepoPath(f, appRoot) == f
    ensures Absolute(f) ==> (RepoPath(f, appRoot) == "sgx-enclave/" + below <==> f == appRoot + "/" + below)
  {
    var root := appRoot + "/";
    assert "sgx-enclave/" == REPO_APP_SUBDIR + "/";
    assert (root + below)[|root|..] == below;
    if root <= f {
      assert f == root + f[|root|..];
      assert ("sgx-enclave/" + below)[|"sgx-enclave/"|..] == below;
      assert RepoPath(f, appRoot)[|"sgx-enclave/"|..] == f[|root|..];
    } else if Absolute(f) {
      assert ("sgx-enclave/" + below)[0] == 's';
    }
  }

  /** Two files of the enclave never share a repository path. */
  lemma RepoPathIsInjective(a: Bytes, b: Bytes, appRoot: Bytes)
    requires Absolute(a) && Absolute(b) && RepoPath(a, appRoot) == RepoPath(b, appRoot)
    ensures a == b
  {
    var root := appRoot + "/";
    if root <= a && root <= b {
      var below := REPO_APP_SUBDIR + "/";
      assert RepoPath(a, appRoot) == below + a[|root|..] && RepoPath(b, appRoot) == below + b[|root|..];
      assert (below + a[|root|..])[|below|..] == a[|root|..] && (below + b[|root|..])[|below|..] == b[|root|..];
      assert a == root + a[|root|..] && b == root + b[|root|..];
    } else {
      assert RepoPath(a, appRoot)[0] == if root <= a then 's' else '/';
      assert RepoPath(b, appRoot)[0] == if root <= b then 's' else '/';
    }
  }

  /** So the local table holds every file with its own hash, and nothing else. */
  lemma {:induction false} EveryLocalFileIsHashed(files: seq<Bytes>, appRoot: Bytes, hashOf: Bytes -> Bytes)
    requires forall f :: f in files ==> Absolute(f)
    ensures var local := LocalHashes(files, appRoot, hashOf);
      && (forall f :: f in files ==> RepoPath(f, appRoot) in local && local[RepoPath(f, appRoot)] == hashOf(f))
      && (forall p :: p in local ==> exists f :: f in files && RepoPath(f, appRoot) == p)
  {
    hide RepoPath;
    if files != [] {
      var front, last := files[..|files| - 1], files[|files| - 1];
      EveryLocalFileIsHashed(front, appRoot, hashOf);
      var local := LocalHashes(files, appRoot, hashOf);
      forall f | f in files ensures RepoPath(f, appRoot) in local && local[RepoPath(f, appRoot)] == hashOf(f) {
        if RepoPath(f, appRoot) == RepoPath(last, appRoot) {
          RepoPathIsInjective(f, last, appRoot);
        } else {
          assert f in front;
        }
      }
      forall p | p in local ensures exists f :: f in files && RepoPath(f, appRoot) == p {
        if p == RepoPath(last, appRoot) {
          assert last in files;
        } else {
          var f :| f in front && RepoPath(f, appRoot) == p;
          assert f in files;
        }
      }
    }
  }

  /** When the check passes against a repository, every file of the application is in the published archive
      below sgx-enclave, with the hash it has here. */
  lemma PassingCoversTheApplication(entries: seq<Bytes>, appRoot: Bytes, expand: Bytes -> seq<Bytes>,
                                    hashOf: Bytes -> Bytes, download: Option<Bytes>, sha: Bytes -> Bytes, below: Bytes)
    requires var files := LocalFiles(entries, appRoot, expand);
      files == [] || Matches(LocalHashes(files, appRoot, hashOf), download, sha)
    requires IsRoot(appRoot) && AllAbsolute(entries, expand) && OfApplication(entries, appRoot, expand, below)
    ensures ArchivedAs(download, sha, "sgx-enclave/" + below, hashOf(appRoot + "/" + below))
  {
    hide ParseTar, Plain, LeftOut, LocalFiles, LocalHashes, IsRoot;
    var files := LocalFiles(entries, appRoot, expand);
    var rest :| Plain(rest) && !("node_modules" <= rest) && appRoot + "/" + rest in entries
             && appRoot + "/" + below in expand(appRoot + "/" + rest);
    EntryBelowRoot(appRoot, rest);
    var f := appRoot + "/" + below;
    CheckedFiles(entries, appRoot, expand, f);
    forall g | g in files ensures Absolute(g) {
      CheckedFiles(entries, appRoot, expand, g);
    }
    EveryLocalFileIsHashed(files, appRoot, hashOf);
    RepoPathIs(f, appRoot, below);
  }

  lemma PassingCoversAll(entries: seq<Bytes>, appRoot: Bytes, expand: Bytes -> seq<Bytes>,
                         hashOf: Bytes -> Bytes, download: Option<Bytes>, sha: Bytes -> Bytes)
    requires var files := LocalFiles(entries, appRoot, expand);
      files == [] || Matches(LocalHashes(files, appRoot, hashOf), download, sha)
    ensures IsRoot(appRoot) && AllAbsolute(entries, expand) ==>
      forall below :: OfApplication(entries, appRoot, expand, below) ==>
        ArchivedAs(download, sha, "sgx-enclave/" + below, hashOf(appRoot + "/" + below))
  {
    hide IsRoot, AllAbsolute, OfApplication, ArchivedAs, Matches;
    if IsRoot(appRoot) && AllAbsolute(entries, expand) {
      forall below | OfApplication(entries, appRoot, expand, below)
        ensures ArchivedAs(download, sha, "sgx-enclave/" + below, hashOf(appRoot + "/" + below))
      {
        PassingCoversTheApplication(entries, appRoot, expand, hashOf, download, sha, below);
      }
    }
  }

  method HashLocalFiles(files: seq<Bytes>, appRoot: Bytes, hashOf: Bytes -> Bytes) returns (local: map<Bytes, Bytes>)
    ensures local == LocalHashes(files, appRoot, hashOf)
  {
    local := map[];
    for i := 0 to |files|
      invariant local == LocalHashes(files[..i], appRoot, hashOf)
    {
      assert files[..i + 1][..i] == files[..i];
      local := local[RepoPath(files[i], appRoot) := hashOf(files[i])];
    }
    assert files[..|files|] == files;
  }

  lemma OneMoreEntry(files: seq<Bytes>, entries: seq<Bytes>, i: nat, appRoot: Bytes, expand: Bytes -> seq<Bytes>)
    requires i < |entries|
    ensures files + LocalFiles(entries[i..], appRoot, expand)
         == (if IsAppEntry(entries[i], appRoot) then files + expand(entries[i]) else files)
            + LocalFiles(entries[i + 1..], appRoot, expand)
  {
    hide IsAppEntry;
    assert entries[i..][1..] == entries[i + 1..];
    var first, rest := expand(entries[i]), LocalFiles(entries[i + 1..], appRoot, expand);
    assert files + (first + rest) == files + first + rest && [] + rest == rest;
  }

  method CollectAppFiles(entries: seq<Bytes>, appRoot: Bytes, expand: Bytes -> seq<Bytes>) returns (files: seq<Bytes>)
    ensures files == LocalFiles(entries, appRoot, expand)
  {
    hide IsAppEntry, LocalFiles;
    files := [];
    assert entries[0..] == entries && entries[|entries|..] == [];
    for i := 0 to |entries|
      invariant files + LocalFiles(entries[i..], appRoot, expand) == LocalFiles(entries, appRoot, expand)
    {
      OneMoreEntry(files, entries, i, appRoot, expand);
      if IsAppEntry(entries[i], appRoot) {
        files := files + expand(entries[i]);
      }
    }
    NoEntriesLeft(files, appRoot, expand);
  }

  lemma NoEntriesLeft(files: seq<Bytes>, appRoot: Bytes, expand: Bytes -> seq<Bytes>)
    ensures files + LocalFiles([], appRoot, expand) == files
  {
  }

  /** Counts the local files whose hash differs; all of them are in the archive. */
  method CountMismatches(local: map<Bytes, Bytes>, remote: map<Bytes, Bytes>) returns (count: nat)
    requires forall p :: p in local ==> p in remote
    ensures count == |set p | p in local && remote[p] != local[p]|
  {
    count := 0;
    var rest := local.Keys;
    ghost var found: set<Bytes> := {};
    while rest != {}
      invariant rest <= local.Keys
      invariant found == set p | p in local && p !in rest && remote[p] != local[p]
      invariant count == |found|
      decreases |rest|
    {
      var p :| p in rest;
      rest := rest - {p};
      if remote[p] != local[p] {
        count := count + 1;
        found := found + {p};
      }
    }
    assert found == set p | p in local && remote[p] != local[p];
  }

  /** The whole check. It passes exactly when no repository is set, when there is nothing to check, or
      when the local files match the archive; a rejection says how many files were at fault. */
  method VerifyCodeIntegrity(repositorySet: bool, entries: seq<Bytes>, appRoot: Bytes, expand: Bytes -> seq<Bytes>,
                             hashOf: Bytes -> Bytes, download: Option<Bytes>, sha: Bytes -> Bytes)
    returns (verdict: Verdict)
    ensures verdict.Verified? <==>
      (!repositorySet
       || (entries != []
           && var files := LocalFiles(entries, appRoot, expand);
              files == [] || Matches(LocalHashes(files, appRoot, hashOf), download, sha)))
    ensures verdict.Rejected? ==>
      var local := LocalHashes(LocalFiles(entries, appRoot, expand), appRoot, hashOf);
      verdict.fileCount == |LocalFiles(entries, appRoot, expand)|
      && match verdict.reason
         case MissingRequired => REQUIRED_REPO_FILE !in local
         case MissingInRemote(n) => download.Some? && var parsed := ParseTar(download.value, sha);
           parsed.Files? && 0 < n == |local.Keys - parsed.files.Keys|
         case Mismatch(n) => download.Some? && var parsed := ParseTar(download.value, sha);
           parsed.Files? && local.Keys <= parsed.files.Keys
           && 0 < n == |set p | p in local && p in parsed.files && parsed.files[p] != local[p]|
    ensures verdict.Verified? && repositorySet && IsRoot(appRoot) && AllAbsolute(entries, expand) ==>
      forall below :: OfApplication(entries, appRoot, expand, below) ==>
        ArchivedAs(download, sha, "sgx-enclave/" + below, hashOf(appRoot + "/" + below))
  {
    hide ParseTar, Parse, LocalFiles, LocalHashes, RepoPath, IsRoot, AllAbsolute, OfApplication, ArchivedAs;
    if !repositorySet {
      return Verified(0);
    }
    if entries == [] {
      return Failed;
    }
    var localFiles := CollectAppFiles(entries, appRoot, expand);
    if localFiles == [] {
      PassingCoversAll(entries, appRoot, expand, hashOf, download, sha);
      return Verified(0);
    }
    var local := HashLocalFiles(localFiles, appRoot, hashOf);
    if REQUIRED_REPO_FILE !in local {
      return Rejected(|localFiles|, MissingRequired);
    }
    if download.None? {
      return Failed;
    }
    var parsed := ParseTarToSha256Map(download.value, sha);
    if !parsed.Files? {
      return Failed;
    }
    var remote := parsed.files;
    var missing := local.Keys - remote.Keys;
    if |missing| > 0 {
      var p :| p in missing;
      return Rejected(|localFiles|, MissingInRemote(|missing|));
    }
    assert forall p :: p in local ==> p !in missing;
    var mismatches := CountMismatches(local, remote);
    ghost var wrong := set p | p in local && remote[p] != local[p];
    assert wrong == set p | p in local && p in remote && remote[p] != local[p];
    if mismatches > 0 {
      assert !SubMap(local, remote) by {
        var p :| p in wrong;
      }
      return Rejected(|localFiles|, Mismatch(mismatches));
    }
    assert forall p :: p in local ==> p !in wrong;
    PassingCoversAll(entries, appRoot, expand, hashOf, download, sha);
    return Verified(|localFiles|);
  }

  // ---- what passing means ----------------------------------------------------------------

  /** Every enclave file is, by its repository path, the last file archived under that path. */
  ghost predicate Published(files: seq<Bytes>, appRoot: Bytes, hashOf: Bytes -> Bytes, items: seq<Item>, sha: Bytes -> Bytes) {
    forall f :: f in files ==> PublishedAs(items, RepoPath(f, appRoot), hashOf(f), sha)
  }

  ghost predicate PublishedAs(items: seq<Item>, path: Bytes, hash: Bytes, sha: Bytes -> Bytes) {
    exists i: nat :: LastOf(items, i) && items[i].path == path && sha(items[i].content) == hash
  }

  lemma {:induction false} WrittenHasALast(items: seq<Item>, path: Bytes) returns (i: nat)
    requires Written(items, path)
    ensures LastOf(items, i) && items[i].path == path
  {
    var n := |items| - 1;
    if items[n].File? && items[n].path == path {
      i := n;
    } else {
      var front := items[..n];
      assert Written(front, path) by {
        var k :| 0 <= k < |items| && items[k].File? && items[k].path == path;
        assert front[k] == items[k];
      }
      i := WrittenHasALast(front, path);
    }
  }

  lemma LockFileIsHashed(files: seq<Bytes>, appRoot: Bytes, hashOf: Bytes -> Bytes)
    requires forall f :: f in files ==> Absolute(f)
    ensures REQUIRED_REPO_FILE in LocalHashes(files, appRoot, hashOf) <==> appRoot + "/package-lock.json" in files
  {
    hide RepoPath, LocalHashes;
    EveryLocalFileIsHashed(files, appRoot, hashOf);
    assert REQUIRED_REPO_FILE == "sgx-enclave/" + "package-lock.json";
    assert appRoot + "/" + "package-lock.json" == appRoot + "/package-lock.json";
    forall f ensures Absolute(f) ==> (RepoPath(f, appRoot) == REQUIRED_REPO_FILE <==> f == appRoot + "/package-lock.json")
    {
      RepoPathIs(f, appRoot, "package-lock.json");
    }
    RepoPathIs(appRoot + "/package-lock.json", appRoot, "package-lock.json");
  }

  /** Against an archive written for a list of files, a nonempty local tree passes if and only if the
      lock file is one of its files and every one of its files is published with the same hash. */
  lemma PassesIffPublished(files: seq<Bytes>, appRoot: Bytes, hashOf: Bytes -> Bytes,
                           top: Bytes, items: seq<Item>, tail: Bytes, sha: Bytes -> Bytes)
    requires forall f :: f in files ==> Absolute(f)
    requires top != [] && '/' !in top && EndOfArchive(tail)
    requires forall item :: item in items ==> Printable(top, item)
    ensures Matches(LocalHashes(files, appRoot, hashOf), Some(PrintAll(top, items) + tail), sha) <==>
      appRoot + "/package-lock.json" in files && Published(files, appRoot, hashOf, items, sha)
  {
    hide ParseTar, PrintAll, Printable, RepoPath, LocalHashes, Written;
    var local := LocalHashes(files, appRoot, hashOf);
    EveryLocalFileIsHashed(files, appRoot, hashOf);
    ReadingUndoesWriting(top, items, tail, sha);
    SubMapIffPublished(files, appRoot, hashOf, ParseTar(PrintAll(top, items) + tail, sha).files, items, sha);
    LockFileIsHashed(files, appRoot, hashOf);
  }

  lemma SubMapIffPublished(files: seq<Bytes>, appRoot: Bytes, hashOf: Bytes -> Bytes, remote: map<Bytes, Bytes>,
                           items: seq<Item>, sha: Bytes -> Bytes)
    requires (forall f :: f in files ==> Absolute(f)) && HoldsLatest(remote, items, sha)
    ensures SubMap(LocalHashes(files, appRoot, hashOf), remote) <==> Published(files, appRoot, hashOf, items, sha)
  {
    hide RepoPath, LocalHashes;
    var local := LocalHashes(files, appRoot, hashOf);
    EveryLocalFileIsHashed(files, appRoot, hashOf);
    if SubMap(local, remote) {
      forall f | f in files ensures PublishedAs(items, RepoPath(f, appRoot), hashOf(f), sha) {
        HashIsLatest(remote, items, sha, RepoPath(f, appRoot), hashOf(f));
      }
    }
    if Published(files, appRoot, hashOf, items, sha) {
      forall p | p in local ensures p in remote && remote[p] == local[p] {
        assert exists f :: f in files && RepoPath(f, appRoot) == p;
        var f :| f in files && RepoPath(f, appRoot) == p;
        HashIsLatest(remote, items, sha, p, hashOf(f));
      }
    }
  }

  lemma HashIsLatest(remote: map<Bytes, Bytes>, items: seq<Item>, sha: Bytes -> Bytes, path: Bytes, hash: Bytes)
    requires HoldsLatest(remote, items, sha)
    ensures path in remote && remote[path] == hash <==> PublishedAs(items, path, hash, sha)
  {
    if path in remote {
      var i := WrittenHasALast(items, path);
    }
    if PublishedAs(items, path, hash, sha) {
      var i: nat :| LastOf(items, i) && items[i].path == path && sha(items[i].content) == hash;
      LastIsWritten(items, i);
    }
  }

  lemma LastIsWritten(items: seq<Item>, i: nat)
    requires LastOf(items, i)
    ensures Written(items, items[i].path)
  {
  }
}
