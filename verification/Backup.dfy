/** Building, staging and restoring managed backup archives. */
module Backup {
  import opened Wrappers
  import opened Files
  import opened Archive
  import Restore

  datatype Source = Source(name: string, path: Path, origin: string, required: bool)

  /** The three separate contents the builder makes of one source. */
  datatype Read = Read(present: bool, archived: Bytes, size: nat, hashed: Bytes)

  /** The source did not change while the archive was built. */
  predicate Stable(nodes: Nodes, source: Source, read: Read) {
    && (read.present <==> IsFile(nodes, source.path))
    && (read.present ==> read.archived == read.hashed == nodes[source.path].data && read.size == |read.archived|)
  }

  predicate PlanOk(sources: seq<Source>, manifestName: string) {
    && SafeName(manifestName)
    && (forall i :: 0 <= i < |sources| ==> SafeName(sources[i].name) && sources[i].name != manifestName)
    && (forall i, j :: 0 <= i < j < |sources| ==> sources[i].name != sources[j].name)
  }

  /** Every archived source is stored under the name its manifest entry gives. */
  predicate NamesKept(sources: seq<Source>, contents: seq<Read>)
    requires |contents| == |sources|
  {
    forall i :: 0 <= i < |sources| && contents[i].present ==> StoredName(sources[i].name) == sources[i].name
  }

  function EntryJson(codec: Codec, source: Source, read: Read): Json {
    JObject(map["name" := JString(source.name), "source" := JString(source.origin),
                "size" := JNumber(read.size), "sha256" := JString(codec.digest(read.hashed))])
  }

  function Archived(sources: seq<Source>, contents: seq<Read>): seq<Member>
    requires |contents| == |sources|
  {
    if sources == [] then []
    else
      var n := |sources| - 1;
      var before := Archived(sources[..n], contents[..n]);
      if contents[n].present then before + [Member(StoredName(sources[n].name), contents[n].archived, true)] else before
  }

  function Entries(codec: Codec, sources: seq<Source>, contents: seq<Read>): seq<Json>
    requires |contents| == |sources|
  {
    if sources == [] then []
    else
      var n := |sources| - 1;
      var before := Entries(codec, sources[..n], contents[..n]);
      if contents[n].present then before + [EntryJson(codec, sources[n], contents[n])] else before
  }

  function Missing(sources: seq<Source>, contents: seq<Read>): seq<Json>
    requires |contents| == |sources|
  {
    if sources == [] then []
    else
      var n := |sources| - 1;
      var before := Missing(sources[..n], contents[..n]);
      if contents[n].present then before
      else before + [JObject(map["name" := JString(sources[n].name), "source" := JString(sources[n].origin)])]
  }

  function BuiltManifest(codec: Codec, sources: seq<Source>, contents: seq<Read>, manifest: map<string, Json>): map<string, Json>
    requires |contents| == |sources|
  {
    manifest["files" := JList(Entries(codec, sources, contents))]["missing" := JList(Missing(sources, contents))]
  }

  /** The given manifest is kept but for the two lists, which describe the archive. */
  lemma ManifestKeeps(codec: Codec, sources: seq<Source>, contents: seq<Read>, manifest: map<string, Json>)
    requires |contents| == |sources|
    ensures var built := BuiltManifest(codec, sources, contents, manifest);
      && built.Keys == manifest.Keys + {"files", "missing"}
      && (forall key :: key in manifest && key != "files" && key != "missing" ==> built[key] == manifest[key])
      && built["files"] == JList(Entries(codec, sources, contents)) && built["missing"] == JList(Missing(sources, contents))
  {
  }

  function BuiltMembers(codec: Codec, sources: seq<Source>, contents: seq<Read>, manifest: map<string, Json>, manifestName: string): seq<Member>
    requires |contents| == |sources|
  {
    Archived(sources, contents) + [Member(manifestName, codec.encode(JObject(BuiltManifest(codec, sources, contents, manifest))), true)]
  }

  function BuildOptions(manifestName: string): Options {
    Options(manifestName, map[], [], false, true)
  }

  // ----- The manifest describes the members -----

  lemma {:induction false} OneEntryPerMember(codec: Codec, sources: seq<Source>, contents: seq<Read>)
    requires |contents| == |sources|
    ensures |Entries(codec, sources, contents)| == |Archived(sources, contents)|
  {
    if sources != [] {
      var n := |sources| - 1;
      OneEntryPerMember(codec, sources[..n], contents[..n]);
    }
  }

  /** The source behind the k-th member, which is also the one its manifest entry describes. */
  lemma {:induction false} OriginOf(codec: Codec, sources: seq<Source>, contents: seq<Read>, k: nat) returns (i: nat)
    requires |contents| == |sources| && k < |Archived(sources, contents)|
    ensures |Entries(codec, sources, contents)| == |Archived(sources, contents)|
    ensures i < |sources| && contents[i].present
    ensures Archived(sources, contents)[k] == Member(StoredName(sources[i].name), contents[i].archived, true)
    ensures Entries(codec, sources, contents)[k] == EntryJson(codec, sources[i], contents[i])
    ensures var fields := EntryJson(codec, sources[i], contents[i]).fields;
      && fields.Keys == {"name", "source", "size", "sha256"}
      && fields["name"] == JString(sources[i].name) && fields["source"] == JString(sources[i].origin)
      && fields["size"] == JNumber(contents[i].size) && fields["sha256"] == JString(codec.digest(contents[i].hashed))
  {
    OneEntryPerMember(codec, sources, contents);
    var n := |sources| - 1;
    OneEntryPerMember(codec, sources[..n], contents[..n]);
    if k < |Archived(sources[..n], contents[..n])| {
      i := OriginOf(codec, sources[..n], contents[..n], k);
    } else {
      i := n;
    }
  }

  /** The manifest lists as missing the sources that were absent, and no other. */
  lemma {:induction false} MissingIff(sources: seq<Source>, contents: seq<Read>, item: Json)
    requires |contents| == |sources|
    ensures item in Missing(sources, contents) <==> exists i :: 0 <= i < |sources| && IsAbsent(sources[i], contents[i], item)
  {
    if sources != [] {
      var n := |sources| - 1;
      MissingIff(sources[..n], contents[..n], item);
      forall i | 0 <= i < n ensures sources[i] == sources[..n][i] && contents[i] == contents[..n][i] {
      }
      AbsentIff(sources[n], contents[n], item);
      if item in Missing(sources[..n], contents[..n]) {
        var i :| 0 <= i < n && IsAbsent(sources[..n][i], contents[..n][i], item);
        assert IsAbsent(sources[i], contents[i], item);
      }
      if i :| 0 <= i < n && IsAbsent(sources[i], contents[i], item) {
        assert IsAbsent(sources[..n][i], contents[..n][i], item);
      }
    }
  }

  lemma AbsentIff(source: Source, read: Read, item: Json)
    ensures IsAbsent(source, read, item) <==> !read.present && item == JObject(map["name" := JString(source.name), "source" := JString(source.origin)])
  {
    var m: map<string, Json> := map["name" := JString(source.name), "source" := JString(source.origin)];
    if IsAbsent(source, read, item) {
      assert item.fields == m;
    }
  }

  ghost predicate IsAbsent(source: Source, read: Read, item: Json) {
    && !read.present && item.JObject? && item.fields.Keys == {"name", "source"}
    && item.fields["name"] == JString(source.name) && item.fields["source"] == JString(source.origin)
  }

  lemma {:induction false} PresentIsArchived(codec: Codec, sources: seq<Source>, contents: seq<Read>, i: nat) returns (k: nat)
    requires |contents| == |sources| && i < |sources| && contents[i].present
    ensures k < |Archived(sources, contents)| == |Entries(codec, sources, contents)|
    ensures Archived(sources, contents)[k] == Member(StoredName(sources[i].name), contents[i].archived, true)
    ensures Entries(codec, sources, contents)[k] == EntryJson(codec, sources[i], contents[i])
  {
    var n := |sources| - 1;
    OneEntryPerMember(codec, sources, contents);
    OneEntryPerMember(codec, sources[..n], contents[..n]);
    if i == n {
      k := |Archived(sources[..n], contents[..n])|;
    } else {
      k := PresentIsArchived(codec, sources[..n], contents[..n], i);
    }
  }

  /** The members are the present sources, under safe names of their own. */
  lemma ArchivedNames(codec: Codec, sources: seq<Source>, contents: seq<Read>, manifestName: string, k: nat)
    requires |contents| == |sources| && PlanOk(sources, manifestName) && NamesKept(sources, contents) && k < |Archived(sources, contents)|
    ensures var member := Archived(sources, contents)[k];
      SafeName(member.name) && member.intact && member.name != manifestName
  {
    var i := OriginOf(codec, sources, contents, k);
  }

  lemma {:induction false} ArchivedDiffer(codec: Codec, sources: seq<Source>, contents: seq<Read>, manifestName: string)
    requires |contents| == |sources| && PlanOk(sources, manifestName) && NamesKept(sources, contents)
    ensures AllDifferent(Archived(sources, contents), |Archived(sources, contents)|)
  {
    if sources != [] {
      var n := |sources| - 1;
      ArchivedDiffer(codec, sources[..n], contents[..n], manifestName);
      var before := Archived(sources[..n], contents[..n]);
      forall j | 0 <= j < |before| ensures before[j].name != sources[n].name {
        var i := OriginOf(codec, sources[..n], contents[..n], j);
        assert contents[i].present && StoredName(sources[i].name) == sources[i].name;
      }
      if contents[n].present {
        AppendDifferent(before, Member(StoredName(sources[n].name), contents[n].archived, true));
      }
    }
  }

  lemma AppendDifferent(members: seq<Member>, member: Member)
    requires AllDifferent(members, |members|) && forall j :: 0 <= j < |members| ==> members[j].name != member.name
    ensures AllDifferent(members + [member], |members| + 1)
  {
  }

  lemma BuiltMembersClean(codec: Codec, sources: seq<Source>, contents: seq<Read>, manifest: map<string, Json>, manifestName: string)
    requires |contents| == |sources| && PlanOk(sources, manifestName) && NamesKept(sources, contents)
    ensures var members := BuiltMembers(codec, sources, contents, manifest, manifestName);
      && MembersClean(members) && manifestName in MemberNames(members)
      && Find(members, manifestName) == members[|members| - 1]
  {
    var members := BuiltMembers(codec, sources, contents, manifest, manifestName);
    assert members[|members| - 1].name == manifestName;
    ArchivedDiffer(codec, sources, contents, manifestName);
    forall k | 0 <= k < |members| - 1 ensures members[k] == Archived(sources, contents)[k] && SafeName(members[k].name) && members[k].intact && members[k].name != manifestName {
      ArchivedNames(codec, sources, contents, manifestName, k);
    }
  }

  lemma BuiltEntry(codec: Codec, sources: seq<Source>, contents: seq<Read>, manifest: map<string, Json>, manifestName: string, k: nat)
    requires |contents| == |sources| && PlanOk(sources, manifestName) && NamesKept(sources, contents) && k < |Archived(sources, contents)|
    ensures |Entries(codec, sources, contents)| == |Archived(sources, contents)|
    ensures var members, entry, member := BuiltMembers(codec, sources, contents, manifest, manifestName), Entries(codec, sources, contents)[k], Archived(sources, contents)[k];
      && NamedEntry(entry) && EntryName(entry) == member.name && SafeName(member.name)
      && member.name in MemberNames(members) && Find(members, member.name) == member
  {
    var _ := OriginOf(codec, sources, contents, k);
    BuiltMembersClean(codec, sources, contents, manifest, manifestName);
    ArchivedNames(codec, sources, contents, manifestName, k);
    var members := BuiltMembers(codec, sources, contents, manifest, manifestName);
    assert members[k] == Archived(sources, contents)[k];
    FindUnique(members, k);
  }

  /**
   With stable sources and a faithful codec the archive verifies clean exactly when every archived source
   is stored under its own name, which `StoredNameIff` lets a caller read off the name.
   */
  lemma StableBuildCleanIff(codec: Codec, nodes: Nodes, sources: seq<Source>, contents: seq<Read>, manifest: map<string, Json>, manifestName: string)
    requires |contents| == |sources| && PlanOk(sources, manifestName) && Faithful(codec)
    requires forall i :: 0 <= i < |sources| ==> Stable(nodes, sources[i], contents[i])
    ensures Clean(codec, Zip(BuiltMembers(codec, sources, contents, manifest, manifestName)), BuildOptions(manifestName)) <==> NamesKept(sources, contents)
  {
    if NamesKept(sources, contents) {
      StableKeptIsClean(codec, nodes, sources, contents, manifest, manifestName);
    } else if Clean(codec, Zip(BuiltMembers(codec, sources, contents, manifest, manifestName)), BuildOptions(manifestName)) {
      CleanKeepsNames(codec, sources, contents, manifest, manifestName);
    }
  }

  lemma StableKeptIsClean(codec: Codec, nodes: Nodes, sources: seq<Source>, contents: seq<Read>, manifest: map<string, Json>, manifestName: string)
    requires |contents| == |sources| && PlanOk(sources, manifestName) && NamesKept(sources, contents) && Faithful(codec)
    requires forall i :: 0 <= i < |sources| ==> Stable(nodes, sources[i], contents[i])
    ensures Clean(codec, Zip(BuiltMembers(codec, sources, contents, manifest, manifestName)), BuildOptions(manifestName))
  {
    var members := BuiltMembers(codec, sources, contents, manifest, manifestName);
    var entries := Entries(codec, sources, contents);
    BuiltMembersClean(codec, sources, contents, manifest, manifestName);
    BuiltManifestRead(codec, sources, contents, manifest, manifestName);
    OneEntryPerMember(codec, sources, contents);
    forall k | 0 <= k < |entries| ensures EntryClean(codec, members, entries, k, true) {
      StableEntryIsClean(codec, nodes, sources, contents, manifest, manifestName, k);
    }
    assert EntriesClean(codec, members, entries, |entries|, true);
  }

  /** The archive just built, found under the manifest's name, lists one entry for each archived source. */
  lemma BuiltManifestRead(codec: Codec, sources: seq<Source>, contents: seq<Read>, manifest: map<string, Json>, manifestName: string)
    requires |contents| == |sources| && Faithful(codec)
    ensures var members := BuiltMembers(codec, sources, contents, manifest, manifestName);
      && manifestName in MemberNames(members)
      && codec.decode(Find(members, manifestName).data) == Some(JObject(BuiltManifest(codec, sources, contents, manifest)))
  {
    var members := BuiltMembers(codec, sources, contents, manifest, manifestName);
    assert members[|members| - 1].name == manifestName;
  }

  /** A clean archive has stored every source under its own name, stable or not. */
  lemma CleanKeepsNames(codec: Codec, sources: seq<Source>, contents: seq<Read>, manifest: map<string, Json>, manifestName: string)
    requires |contents| == |sources| && PlanOk(sources, manifestName) && Faithful(codec)
    requires Clean(codec, Zip(BuiltMembers(codec, sources, contents, manifest, manifestName)), BuildOptions(manifestName))
    ensures NamesKept(sources, contents)
  {
    forall i | 0 <= i < |sources| && contents[i].present ensures StoredName(sources[i].name) == sources[i].name {
      CleanListsSource(codec, sources, contents, manifest, manifestName, i);
      ListedIsStored(codec, sources, contents, manifest, manifestName, i);
    }
  }

  lemma CleanListsSource(codec: Codec, sources: seq<Source>, contents: seq<Read>, manifest: map<string, Json>, manifestName: string, i: nat)
    requires |contents| == |sources| && Faithful(codec) && i < |sources| && contents[i].present
    requires Clean(codec, Zip(BuiltMembers(codec, sources, contents, manifest, manifestName)), BuildOptions(manifestName))
    ensures sources[i].name in MemberNames(BuiltMembers(codec, sources, contents, manifest, manifestName))
  {
    var members, entries := BuiltMembers(codec, sources, contents, manifest, manifestName), Entries(codec, sources, contents);
    BuiltManifestRead(codec, sources, contents, manifest, manifestName);
    assert EntriesClean(codec, members, entries, |entries|, true);
    var k := PresentIsArchived(codec, sources, contents, i);
    assert EntryClean(codec, members, entries, k, true);
  }

  /** A member under a source's name, other than the manifest, was stored for some source. */
  lemma ListedIsStored(codec: Codec, sources: seq<Source>, contents: seq<Read>, manifest: map<string, Json>, manifestName: string, i: nat)
    requires |contents| == |sources| && i < |sources| && sources[i].name != manifestName
    requires sources[i].name in MemberNames(BuiltMembers(codec, sources, contents, manifest, manifestName))
    ensures StoredName(sources[i].name) == sources[i].name
  {
    var members := BuiltMembers(codec, sources, contents, manifest, manifestName);
    var m :| 0 <= m < |members| && members[m].name == sources[i].name;
    var j := OriginOf(codec, sources, contents, m);
    StoredNameIff(sources[j].name);
  }

  /** A plan with a name such as "./a" for a file that is there is accepted, and never builds a clean archive. */
  lemma DotNameNeverBuilds(codec: Codec, path: Path, origin: string, read: Read, manifest: map<string, Json>, manifestName: string)
    requires Faithful(codec) && SafeName(manifestName) && manifestName != "./a" && read.present
    ensures var sources := [Source("./a", path, origin, true)];
      PlanOk(sources, manifestName) && !Clean(codec, Zip(BuiltMembers(codec, sources, [read], manifest, manifestName)), BuildOptions(manifestName))
  {
    DotName();
    MisnamedNeverClean(codec, [Source("./a", path, origin, true)], [read], manifest, manifestName, 0);
  }

  lemma MisnamedNeverClean(codec: Codec, sources: seq<Source>, contents: seq<Read>, manifest: map<string, Json>, manifestName: string, i: nat)
    requires |contents| == |sources| && PlanOk(sources, manifestName) && Faithful(codec)
    requires i < |sources| && contents[i].present && StoredName(sources[i].name) != sources[i].name
    ensures !Clean(codec, Zip(BuiltMembers(codec, sources, contents, manifest, manifestName)), BuildOptions(manifestName))
  {
    if Clean(codec, Zip(BuiltMembers(codec, sources, contents, manifest, manifestName)), BuildOptions(manifestName)) {
      CleanKeepsNames(codec, sources, contents, manifest, manifestName);
    }
  }

  lemma DotName()
    ensures SafeName("./a") && StoredName("./a") == "a" && StoredName("./a") != "./a"
  {
    var name := "./a";
    assert PartLength(name, false) == 1 && PartLength(name, true) == 1 && PartLength("a", false) == 1 && PartLength("a", true) == 1;
    assert name[..1] == "." && name[2..] == "a" && "a"[..1] == "a";
    assert NoParentPart("a", false) && NoParentPart("a", true);
    assert Components("a") == ["a"];
  }

  lemma StableEntryIsClean(codec: Codec, nodes: Nodes, sources: seq<Source>, contents: seq<Read>, manifest: map<string, Json>, manifestName: string, k: nat)
    requires |contents| == |sources| && PlanOk(sources, manifestName) && NamesKept(sources, contents) && k < |Archived(sources, contents)|
    requires forall i :: 0 <= i < |sources| ==> Stable(nodes, sources[i], contents[i])
    ensures |Entries(codec, sources, contents)| == |Archived(sources, contents)|
    ensures EntryClean(codec, BuiltMembers(codec, sources, contents, manifest, manifestName), Entries(codec, sources, contents), k, true)
  {
    var entries, members := Entries(codec, sources, contents), Archived(sources, contents);
    BuiltEntry(codec, sources, contents, manifest, manifestName, k);
    ArchivedDiffer(codec, sources, contents, manifestName);
    assert AllDifferent(members, |members|);
    forall j | 0 <= j < k ensures EntryName(entries[j]) != EntryName(entries[k]) {
      BuiltEntry(codec, sources, contents, manifest, manifestName, j);
      assert members[j].name != members[k].name;
    }
    var i := OriginOf(codec, sources, contents, k);
    assert Stable(nodes, sources[i], contents[i]);
  }

  /** Whatever the sources did meanwhile, a clean archive records the size and digest of the bytes it holds. */
  lemma CleanBuildIsConsistent(codec: Codec, sources: seq<Source>, contents: seq<Read>, manifest: map<string, Json>, manifestName: string, i: nat)
    requires |contents| == |sources| && PlanOk(sources, manifestName) && Faithful(codec) && i < |sources| && contents[i].present
    requires Clean(codec, Zip(BuiltMembers(codec, sources, contents, manifest, manifestName)), BuildOptions(manifestName))
    ensures contents[i].size == |contents[i].archived|
    ensures codec.digest(contents[i].hashed) == "" || codec.digest(contents[i].hashed) == codec.digest(contents[i].archived)
  {
    var members := BuiltMembers(codec, sources, contents, manifest, manifestName);
    var entries := Entries(codec, sources, contents);
    CleanKeepsNames(codec, sources, contents, manifest, manifestName);
    BuiltMembersClean(codec, sources, contents, manifest, manifestName);
    var k := PresentIsArchived(codec, sources, contents, i);
    BuiltEntry(codec, sources, contents, manifest, manifestName, k);
    assert EntryClean(codec, members, entries, k, true);
  }

  // ----- Building -----

  datatype BuildError = PlanRejected | SourceMissing(path: Path) | IoFailure | VerificationFailed(errors: seq<Problem>)

  method CheckPlan(sources: seq<Source>, manifestName: string) returns (ok: bool)
    ensures ok <==> PlanOk(sources, manifestName)
  {
    if !SafeName(manifestName) {
      return false;
    }
    var seen: set<string> := {};
    for n := 0 to |sources|
      invariant seen == set i | 0 <= i < n :: sources[i].name
      invariant forall i :: 0 <= i < n ==> SafeName(sources[i].name) && sources[i].name != manifestName
      invariant forall i, j :: 0 <= i < j < n ==> sources[i].name != sources[j].name
    {
      var name := sources[n].name;
      if !SafeName(name) || name == manifestName || name in seen {
        return false;
      }
      seen := seen + {name};
    }
    ok := true;
  }

  lemma GatherStep(codec: Codec, sources: seq<Source>, contents: seq<Read>, n: nat)
    requires n < |sources| == |contents|
    ensures var before, after, read, source := sources[..n], sources[..n + 1], contents[n], sources[n];
      && Archived(after, contents[..n + 1]) == Archived(before, contents[..n]) + (if read.present then [Member(StoredName(source.name), read.archived, true)] else [])
      && Entries(codec, after, contents[..n + 1]) == Entries(codec, before, contents[..n]) + (if read.present then [EntryJson(codec, source, read)] else [])
      && Missing(after, contents[..n + 1]) == Missing(before, contents[..n])
           + (if read.present then [] else [JObject(map["name" := JString(source.name), "source" := JString(source.origin)])])
  {
    assert sources[..n + 1][..n] == sources[..n] && contents[..n + 1][..n] == contents[..n];
  }

  /** The members, the manifest entries and the entries of missing sources, up to a required source that is missing. */
  method Gather(codec: Codec, sources: seq<Source>, contents: seq<Read>, faults: Faults)
    returns (r: Result<(seq<Member>, seq<Json>, seq<Json>), BuildError>, rest: Faults)
    requires |contents| == |sources|
    ensures Quiet(faults) ==> Quiet(rest)
    ensures Quiet(faults) ==> (r.Success? <==> forall i :: 0 <= i < |sources| && sources[i].required ==> contents[i].present)
    ensures r.Success? ==>
      && r.value.0 == Archived(sources, contents) && r.value.1 == Entries(codec, sources, contents) && r.value.2 == Missing(sources, contents)
      && forall i :: 0 <= i < |sources| && sources[i].required ==> contents[i].present
    ensures r.Failure? ==> r.error == IoFailure || exists i :: 0 <= i < |sources| && sources[i].required && !contents[i].present && r.error == SourceMissing(sources[i].path)
  {
    var members, files, missing := [], [], [];
    rest := faults;
    for n := 0 to |sources|
      invariant Quiet(faults) ==> Quiet(rest)
      invariant members == Archived(sources[..n], contents[..n])
      invariant files == Entries(codec, sources[..n], contents[..n])
      invariant missing == Missing(sources[..n], contents[..n])
      invariant forall i :: 0 <= i < n && sources[i].required ==> contents[i].present
    {
      GatherStep(codec, sources, contents, n);
      var item, read := sources[n], contents[n];
      if !read.present {
        if item.required {
          return Failure(SourceMissing(item.path)), rest;
        }
        missing := missing + [JObject(map["name" := JString(item.name), "source" := JString(item.origin)])];
        continue;
      }
      var readFails := Drawn(rest);
      rest := Later(rest);
      if readFails {
        return Failure(IoFailure), rest;
      }
      members := members + [Member(StoredName(item.name), read.archived, true)];
      files := files + [EntryJson(codec, item, read)];
    }
    assert sources[..|sources|] == sources && contents[..|contents|] == contents;
    r := Success((members, files, missing));
  }

  class Vault {
    var archives: map<Path, ArchiveFile>
    var faults: Faults

    /** The published archive is always a clean one; a failure after the rename may still have published it. */
    method Build(codec: Codec, path: Path, sources: seq<Source>, contents: seq<Read>, manifest: map<string, Json>, manifestName: string)
      returns (r: Result<map<string, Json>, BuildError>)
      requires |contents| == |sources|
      modifies this
      ensures var built := Zip(BuiltMembers(codec, sources, contents, manifest, manifestName));
        && (archives == old(archives) || (archives == old(archives)[path := built] && PlanOk(sources, manifestName) && Clean(codec, built, BuildOptions(manifestName))))
        && (r.Success? ==>
              && archives == old(archives)[path := built] && r.value == BuiltManifest(codec, sources, contents, manifest)
              && PlanOk(sources, manifestName) && Clean(codec, built, BuildOptions(manifestName))
              && forall i :: 0 <= i < |sources| && sources[i].required ==> contents[i].present)
      ensures Quiet(old(faults)) ==> Quiet(faults)
      ensures Quiet(old(faults)) ==>
        (r.Success? <==>
          && PlanOk(sources, manifestName) && (forall i :: 0 <= i < |sources| && sources[i].required ==> contents[i].present)
          && Clean(codec, Zip(BuiltMembers(codec, sources, contents, manifest, manifestName)), BuildOptions(manifestName)))
      ensures r.Failure? && r.error.PlanRejected? <==> !PlanOk(sources, manifestName)
      ensures r.Failure? && r.error.VerificationFailed? ==>
        !Clean(codec, Zip(BuiltMembers(codec, sources, contents, manifest, manifestName)), BuildOptions(manifestName))
    {
      var planned := CheckPlan(sources, manifestName);
      if !planned {
        return Failure(PlanRejected);
      }
      var gathered;
      gathered, faults := Gather(codec, sources, contents, faults);
      if gathered.Failure? {
        return Failure(gathered.error);
      }
      var (members, files, missing) := gathered.value;
      var built := manifest["files" := JList(files)]["missing" := JList(missing)];
      members := members + [Member(manifestName, codec.encode(JObject(built)), true)];
      var verification := Verify(codec, Zip(members), BuildOptions(manifestName));
      if verification.value.errors != [] {
        return Failure(VerificationFailed(verification.value.errors));
      }
      var publishFails := Drawn(faults);
      faults := Later(faults);
      if publishFails {
        return Failure(IoFailure);
      }
      archives := archives[path := Zip(members)];
      var chmodFails := Drawn(faults);
      faults := Later(faults);
      r := if chmodFails then Failure(IoFailure) else Success(built);
    }
  }

  // ----- Staging -----

  datatype Entry = Entry(key: string, member: string, required: bool)

  predicate StagePlanOk(entries: seq<Entry>) {
    && entries != []
    && (forall i :: 0 <= i < |entries| ==> entries[i].key != "" && SafeName(entries[i].member))
    && (forall i, j :: 0 <= i < j < |entries| ==> entries[i].key != entries[j].key && entries[i].member != entries[j].member)
  }

  /** What is wrong with a staging plan that is rejected. */
  ghost predicate Unstageable(entries: seq<Entry>) {
    || |entries| == 0
    || (exists entry :: entry in entries && (entry.key == "" || !SafeName(entry.member)))
    || (exists i, j :: 0 <= i < j < |entries| && entries[i].key == entries[j].key)
    || (exists i, j :: 0 <= i < j < |entries| && entries[i].member == entries[j].member)
  }

  lemma StagePlanIff(entries: seq<Entry>)
    ensures StagePlanOk(entries) <==> !Unstageable(entries)
  {
    forall i | 0 <= i < |entries| ensures entries[i] in entries {
    }
  }

  function TailLength(s: string): (n: nat)
    ensures n <= |s|
  {
    if s == "" || s[|s| - 1] == '/' then 0 else 1 + TailLength(s[..|s| - 1])
  }

  /** The final component of a member name; empty components and dots do not count. */
  function BaseName(member: string): string
    decreases |member|
  {
    var n := TailLength(member);
    var tail := member[|member| - n..];
    if n == |member| then (if tail == "." then "" else tail)
    else if tail == "" || tail == "." then BaseName(member[..|member| - n - 1])
    else tail
  }

  /** The name after the last slash; trailing slashes and dots are passed over. */
  lemma {:induction false} BaseNameIs(folder: string, name: string)
    requires '/' !in name
    ensures BaseName(folder + "/" + name) == if name == "" || name == "." then BaseName(folder) else name
  {
    var s := folder + "/" + name;
    TailIs(folder + "/", name);
    assert s[|s| - |name|..] == name && s[..|s| - |name| - 1] == folder;
  }

  lemma BaseNameAlone(name: string)
    requires '/' !in name
    ensures BaseName(name) == if name == "." then "" else name
  {
    TailIs("", name);
    assert "" + name == name && name[|name| - |name|..] == name;
  }

  lemma {:induction false} TailIs(folder: string, name: string)
    requires '/' !in name && (folder == "" || folder[|folder| - 1] == '/')
    ensures TailLength(folder + name) == |name|
  {
    if name == "" {
      assert folder + name == folder;
    } else {
      var n := |name| - 1;
      assert (folder + name)[..|folder + name| - 1] == folder + name[..n] && (folder + name)[|folder + name| - 1] == name[n];
      TailIs(folder, name[..n]);
    }
  }

  function StagePath(directory: string, entries: seq<Entry>, i: nat): Path
    requires i < |entries|
  {
    Path(directory, NumberedName(i, BaseName(entries[i].member)))
  }

  function StagePaths(directory: string, entries: seq<Entry>): set<Path> {
    set i | 0 <= i < |entries| :: StagePath(directory, entries, i)
  }

  function RequiredMembers(entries: seq<Entry>): seq<string> {
    if entries == [] then []
    else
      var n := |entries| - 1;
      RequiredMembers(entries[..n]) + if entries[n].required then [entries[n].member] else []
  }

  lemma {:induction false} RequiredIff(entries: seq<Entry>, name: string)
    ensures name in RequiredMembers(entries) <==> exists i :: 0 <= i < |entries| && entries[i].required && entries[i].member == name
  {
    if entries != [] {
      var n := |entries| - 1;
      RequiredIff(entries[..n], name);
      forall i | 0 <= i < n ensures entries[i] == entries[..n][i] {
      }
    }
  }

  /** The member lies extracted under the path, or is optional and absent. */
  predicate StagedAt(members: seq<Member>, entry: Entry, path: Path, nodes: Nodes, staged: map<string, Option<Path>>) {
    && entry.key in staged
    && if entry.member in MemberNames(members) then
         staged[entry.key] == Some(path) && At(nodes, path) == Some(File(Find(members, entry.member).data))
       else staged[entry.key] == None && !entry.required
  }

  /** The first `n` declared members lie extracted under the paths of the list. */
  predicate StagedOver(members: seq<Member>, entries: seq<Entry>, paths: seq<Path>, n: nat, nodes: Nodes, staged: map<string, Option<Path>>)
    requires n <= |entries| == |paths|
  {
    forall i :: 0 <= i < n ==> StagedAt(members, entries[i], paths[i], nodes, staged)
  }

  function StagePathList(directory: string, entries: seq<Entry>): seq<Path> {
    seq(|entries|, i requires 0 <= i < |entries| => StagePath(directory, entries, i))
  }

  /** The first `n` declared members lie extracted under their own paths; absent ones are None. */
  predicate Staged(members: seq<Member>, directory: string, entries: seq<Entry>, n: nat, nodes: Nodes, staged: map<string, Option<Path>>)
    requires n <= |entries|
  {
    StagedOver(members, entries, StagePathList(directory, entries), n, nodes, staged)
  }

  function StageOptions(o: Options, entries: seq<Entry>): Options {
    o.(required := RequiredMembers(entries))
  }

  datatype StageError = StagePlanRejected | InvalidArchive(errors: seq<Problem>) | StageIoFailure

  method CheckStagePlan(entries: seq<Entry>) returns (ok: bool)
    ensures ok <==> StagePlanOk(entries)
  {
    var keys: set<string>, members: set<string> := {}, {};
    for n := 0 to |entries|
      invariant keys == set i | 0 <= i < n :: entries[i].key
      invariant members == set i | 0 <= i < n :: entries[i].member
      invariant forall i :: 0 <= i < n ==> entries[i].key != "" && SafeName(entries[i].member)
      invariant forall i, j :: 0 <= i < j < n ==> entries[i].key != entries[j].key && entries[i].member != entries[j].member
    {
      var item := entries[n];
      if item.key == "" || !SafeName(item.member) || item.key in keys || item.member in members {
        return false;
      }
      keys, members := keys + {item.key}, members + {item.member};
    }
    ok := entries != [];
  }

  /** The plan and the archive are in order, and no directory is in the way. */
  ghost predicate Stageable(codec: Codec, archive: ArchiveFile, nodes: Nodes, directory: string, entries: seq<Entry>, o: Options) {
    && StagePlanOk(entries) && SafeName(o.manifestName) && Clean(codec, archive, StageOptions(o, entries))
    && NoDirectories(nodes, StagePaths(directory, entries))
  }

  /** Nothing is extracted unless the whole archive verifies. */
  method Stage(codec: Codec, archive: ArchiveFile, disk: Restore.Disk, directory: string, entries: seq<Entry>, o: Options)
    returns (r: Result<map<string, Option<Path>>, StageError>)
    modifies disk
    ensures SameOutside(old(disk.nodes), disk.nodes, StagePaths(directory, entries))
    ensures !Clean(codec, archive, StageOptions(o, entries)) ==> disk.nodes == old(disk.nodes) && r.Failure?
    ensures r.Success? ==> StagePlanOk(entries) && Staged(archive.members, directory, entries, |entries|, disk.nodes, r.value)
    ensures Quiet(old(disk.faults)) ==> Quiet(disk.faults)
    ensures Quiet(old(disk.faults)) && Stageable(codec, archive, old(disk.nodes), directory, entries, o) ==> r.Success?
  {
    var planned := CheckStagePlan(entries);
    if !planned {
      return Failure(StagePlanRejected);
    }
    var verification := Verify(codec, archive, StageOptions(o, entries));
    if verification.Failure? {
      return Failure(InvalidArchive([verification.error]));
    }
    if verification.value.errors != [] {
      return Failure(InvalidArchive(verification.value.errors));
    }
    forall i | 0 <= i < |entries| && entries[i].required ensures entries[i].member in MemberNames(archive.members) {
      RequiredIff(entries, entries[i].member);
    }
    r := Extract(archive.members, disk, directory, entries);
  }

  lemma StagePathsDiffer(directory: string, entries: seq<Entry>, i: nat, j: nat)
    requires i < |entries| && j < |entries|
    ensures StagePath(directory, entries, i).directory == directory && StagePath(directory, entries, i).name == NumberedName(i, BaseName(entries[i].member))
    ensures StagePath(directory, entries, i) == StagePath(directory, entries, j) ==> i == j
  {
    if StagePath(directory, entries, i) == StagePath(directory, entries, j) {
      NumberedNamesDiffer(i, BaseName(entries[i].member), j, BaseName(entries[j].member));
    }
  }

  lemma StagePathsAreNew(directory: string, entries: seq<Entry>)
    ensures var paths := StagePathList(directory, entries);
      forall i, j :: 0 <= i < j < |paths| ==> paths[i] != paths[j]
  {
    var paths := StagePathList(directory, entries);
    forall i, j | 0 <= i < j < |paths| ensures paths[i] != paths[j] {
      StagePathsDiffer(directory, entries, i, j);
    }
  }

  /** Extracting one more member, under a new path and key, leaves those extracted before it alone. */
  lemma StagedStep(members: seq<Member>, entries: seq<Entry>, paths: seq<Path>, n: nat, nodes: Nodes, staged: map<string, Option<Path>>)
    requires StagePlanOk(entries) && n < |entries| == |paths| && StagedOver(members, entries, paths, n, nodes, staged)
    requires forall i, j :: 0 <= i < j < |paths| ==> paths[i] != paths[j]
    ensures entries[n].member in MemberNames(members) ==>
      StagedOver(members, entries, paths, n + 1, nodes[paths[n] := File(Find(members, entries[n].member).data)], staged[entries[n].key := Some(paths[n])])
    ensures entries[n].member !in MemberNames(members) && !entries[n].required ==>
      StagedOver(members, entries, paths, n + 1, nodes, staged[entries[n].key := None])
  {
    forall i | 0 <= i < n ensures entries[i].key != entries[n].key && StagedAt(members, entries[i], paths[i], nodes, staged) {
    }
  }

  /** A failed extraction may leave part of the data behind. */
  method ExtractMember(data: Bytes, disk: Restore.Disk, destination: Path) returns (done: bool)
    modifies disk
    ensures done ==> disk.nodes == old(disk.nodes)[destination := File(data)]
    ensures SameOutside(old(disk.nodes), disk.nodes, {destination})
    ensures Quiet(old(disk.faults)) ==> Quiet(disk.faults)
    ensures Quiet(old(disk.faults)) ==> (done <==> !(destination in old(disk.nodes) && old(disk.nodes)[destination].Directory?))
  {
    if destination in disk.nodes && disk.nodes[destination].Directory? {
      return false;
    }
    var extractFails := disk.Fails();
    if extractFails {
      var partial: Bytes := *;
      disk.nodes := disk.nodes[destination := File(partial)];
      return false;
    }
    disk.nodes := disk.nodes[destination := File(data)];
    done := true;
  }

  method Extract(members: seq<Member>, disk: Restore.Disk, directory: string, entries: seq<Entry>)
    returns (r: Result<map<string, Option<Path>>, StageError>)
    requires StagePlanOk(entries)
    requires forall i :: 0 <= i < |entries| && entries[i].required ==> entries[i].member in MemberNames(members)
    modifies disk
    ensures SameOutside(old(disk.nodes), disk.nodes, StagePaths(directory, entries))
    ensures r.Success? ==> Staged(members, directory, entries, |entries|, disk.nodes, r.value)
    ensures Quiet(old(disk.faults)) ==> Quiet(disk.faults)
    ensures Quiet(old(disk.faults)) && NoDirectories(old(disk.nodes), StagePaths(directory, entries)) ==> r.Success?
  {
    var paths := StagePathList(directory, entries);
    StagePathsAreNew(directory, entries);
    assert forall i :: 0 <= i < |paths| ==> paths[i] in StagePaths(directory, entries);
    r := ExtractTo(members, disk, entries, paths, StagePaths(directory, entries));
  }

  method ExtractTo(members: seq<Member>, disk: Restore.Disk, entries: seq<Entry>, paths: seq<Path>, ghost where: set<Path>)
    returns (r: Result<map<string, Option<Path>>, StageError>)
    requires StagePlanOk(entries) && |paths| == |entries| && forall i :: 0 <= i < |paths| ==> paths[i] in where
    requires forall i, j :: 0 <= i < j < |paths| ==> paths[i] != paths[j]
    requires forall i :: 0 <= i < |entries| && entries[i].required ==> entries[i].member in MemberNames(members)
    modifies disk
    ensures SameOutside(old(disk.nodes), disk.nodes, where)
    ensures r.Success? ==> StagedOver(members, entries, paths, |entries|, disk.nodes, r.value)
    ensures Quiet(old(disk.faults)) ==> Quiet(disk.faults)
    ensures Quiet(old(disk.faults)) && NoDirectories(old(disk.nodes), where) ==> r.Success?
  {
    var staged: map<string, Option<Path>> := map[];
    for n := 0 to |entries|
      invariant SameOutside(old(disk.nodes), disk.nodes, where)
      invariant StagedOver(members, entries, paths, n, disk.nodes, staged)
      invariant Quiet(old(disk.faults)) ==> Quiet(disk.faults)
      invariant NoDirectories(old(disk.nodes), where) ==> NoDirectories(disk.nodes, where)
    {
      var item := entries[n];
      StagedStep(members, entries, paths, n, disk.nodes, staged);
      if item.member !in MemberNames(members) {
        staged := staged[item.key := None];
        continue;
      }
      var done := ExtractMember(Find(members, item.member).data, disk, paths[n]);
      if !done {
        return Failure(StageIoFailure);
      }
      staged := staged[item.key := Some(paths[n])];
    }
    r := Success(staged);
  }

  // ----- Round trip -----

  /** The staged copy of a source that was present at build time holds its build-time bytes. */
  lemma StagedIsBuildTime(codec: Codec, live: Nodes, sources: seq<Source>, contents: seq<Read>, manifest: map<string, Json>, manifestName: string,
                          directory: string, entries: seq<Entry>, nodes: Nodes, staged: map<string, Option<Path>>, i: nat, e: nat)
    requires |contents| == |sources| && PlanOk(sources, manifestName) && NamesKept(sources, contents)
    requires Staged(BuiltMembers(codec, sources, contents, manifest, manifestName), directory, entries, |entries|, nodes, staged)
    requires i < |sources| && Stable(live, sources[i], contents[i]) && IsFile(live, sources[i].path)
    requires e < |entries| && entries[e].member == sources[i].name
    ensures entries[e].key in staged && staged[entries[e].key] == Some(StagePath(directory, entries, e))
    ensures At(nodes, StagePath(directory, entries, e)) == Some(live[sources[i].path])
  {
    var k := PresentIsArchived(codec, sources, contents, i);
    BuiltEntry(codec, sources, contents, manifest, manifestName, k);
    assert StagedAt(BuiltMembers(codec, sources, contents, manifest, manifestName), entries[e], StagePathList(directory, entries)[e], nodes, staged);
  }

  /**
   Build, stage, restore: a target published from the stage holds the bytes its source had when the
   archive was built, whatever happened to the live files in between.
   */
  lemma BackupRoundTrip(codec: Codec, live: Nodes, sources: seq<Source>, contents: seq<Read>, manifest: map<string, Json>, manifestName: string,
                        directory: string, entries: seq<Entry>, nodes: Nodes, staged: map<string, Option<Path>>,
                        specs: seq<Restore.Spec>, prepared: Nodes, applied: Nodes, s: nat, e: nat, i: nat)
    requires |contents| == |sources| && PlanOk(sources, manifestName) && NamesKept(sources, contents)
    requires Staged(BuiltMembers(codec, sources, contents, manifest, manifestName), directory, entries, |entries|, nodes, staged)
    requires SameOn(nodes, prepared, StagePaths(directory, entries))
    requires Restore.Published(prepared, applied, specs, |specs|)
    requires s < |specs| && e < |entries| && i < |sources|
    requires entries[e].key in staged && staged[entries[e].key] == Some(specs[s].source) && entries[e].member == sources[i].name
    requires Stable(live, sources[i], contents[i]) && IsFile(live, sources[i].path)
    ensures At(applied, specs[s].target) == Some(live[sources[i].path])
  {
    StagedIsBuildTime(codec, live, sources, contents, manifest, manifestName, directory, entries, nodes, staged, i, e);
    assert specs[s].source in StagePaths(directory, entries);
  }

  /** Every target planned to be restored from the staged copy of a source holds what the source held in `live`. */
  ghost predicate BuildTimeRestored(live: Nodes, sources: seq<Source>, contents: seq<Read>, directory: string, entries: seq<Entry>,
                                    specs: seq<Restore.Spec>, now: Nodes)
    requires |contents| == |sources|
  {
    forall s: nat, e: nat, i: nat :: s < |specs| && e < |entries| && i < |sources|
      && specs[s].source == StagePath(directory, entries, e) && entries[e].member == sources[i].name
      && Stable(live, sources[i], contents[i]) && IsFile(live, sources[i].path)
      ==> At(now, specs[s].target) == Some(live[sources[i].path])
  }

  lemma PublishedIsBuildTime(codec: Codec, live: Nodes, sources: seq<Source>, contents: seq<Read>, manifest: map<string, Json>, manifestName: string,
                             directory: string, entries: seq<Entry>, nodes: Nodes, staged: map<string, Option<Path>>,
                             specs: seq<Restore.Spec>, prepared: Nodes, applied: Nodes)
    requires |contents| == |sources| && PlanOk(sources, manifestName) && NamesKept(sources, contents)
    requires Staged(BuiltMembers(codec, sources, contents, manifest, manifestName), directory, entries, |entries|, nodes, staged)
    requires SameOn(nodes, prepared, StagePaths(directory, entries))
    requires Restore.Published(prepared, applied, specs, |specs|)
    ensures BuildTimeRestored(live, sources, contents, directory, entries, specs, applied)
  {
    forall s: nat, e: nat, i: nat | s < |specs| && e < |entries| && i < |sources|
      && specs[s].source == StagePath(directory, entries, e) && entries[e].member == sources[i].name
      && Stable(live, sources[i], contents[i]) && IsFile(live, sources[i].path)
      ensures At(applied, specs[s].target) == Some(live[sources[i].path])
    {
      StagedIsBuildTime(codec, live, sources, contents, manifest, manifestName, directory, entries, nodes, staged, i, e);
      BackupRoundTrip(codec, live, sources, contents, manifest, manifestName, directory, entries, nodes, staged, specs, prepared, applied, s, e, i);
    }
  }

  /** The plan is in order, every archived source keeps its name and its content, and none that is required is missing. */
  predicate Buildable(nodes: Nodes, sources: seq<Source>, contents: seq<Read>, manifestName: string)
    requires |contents| == |sources|
  {
    && PlanOk(sources, manifestName) && NamesKept(sources, contents)
    && forall i :: 0 <= i < |sources| ==> Stable(nodes, sources[i], contents[i]) && (sources[i].required ==> contents[i].present)
  }

  /**
   The three operations in sequence. Between build and staging the files may become anything (`meanwhile`);
   afterwards only the prepare hook may not touch the staged copies. None: building or staging failed.
   */
  method BackUpAndRestore(codec: Codec, vault: Vault, disk: Restore.Disk, path: Path, sources: seq<Source>, contents: seq<Read>,
                          manifest: map<string, Json>, manifestName: string, meanwhile: Nodes, directory: string, entries: seq<Entry>, o: Options,
                          specs: seq<Restore.Spec>, snapshots: string, hooks: Restore.Hooks)
    returns (outcome: Option<Restore.Outcome>, ghost applied: Nodes)
    requires |contents| == |sources| && Faithful(codec)
    requires Restore.Disjoint(snapshots, specs) && Restore.Preserves(hooks.prepare, StagePaths(directory, entries))
    modifies vault, disk
    ensures outcome.Some? && outcome.value.Restored? ==>
      && BuildTimeRestored(old(disk.nodes), sources, contents, directory, entries, specs, applied)
      && disk.nodes == Restore.Effect(hooks.validate, applied)
    ensures var built := Zip(BuiltMembers(codec, sources, contents, manifest, manifestName));
      Quiet(old(vault.faults)) && Quiet(old(disk.faults)) && Buildable(old(disk.nodes), sources, contents, manifestName) && Stageable(codec, built, meanwhile, directory, entries, o) ==>
        outcome.Some?
  {
    if Buildable(disk.nodes, sources, contents, manifestName) {
      StableBuildCleanIff(codec, disk.nodes, sources, contents, manifest, manifestName);
    }
    ghost var live := disk.nodes;
    var built := vault.Build(codec, path, sources, contents, manifest, manifestName);
    applied := disk.nodes;
    if built.Failure? {
      return None, applied;
    }
    CleanKeepsNames(codec, sources, contents, manifest, manifestName);
    disk.nodes := meanwhile;
    var staged := Stage(codec, vault.archives[path], disk, directory, entries, o);
    if staged.Failure? {
      return None, applied;
    }
    ghost var nodes := disk.nodes;
    var result;
    ghost var prepared, undone, late;
    result, prepared, applied, undone, late := disk.RunRestore(specs, snapshots, hooks);
    if result.Restored? {
      PublishedIsBuildTime(codec, live, sources, contents, manifest, manifestName, directory, entries, nodes, staged.value, specs, prepared, applied);
    }
    outcome := Some(result);
  }
}
