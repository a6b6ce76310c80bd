/** Managed backup archives: member names, manifest values and the verifier. */
module Archive {
  import opened Wrappers
  import opened Files

  datatype Json =
    | JNull
    | JBool(flag: bool)
    | JNumber(number: int)
    | JString(text: string)
    | JList(items: seq<Json>)
    | JObject(fields: map<string, Json>)

  /** JSON text and digests, as the caller's environment provides them. */
  datatype Codec = Codec(encode: Json -> Bytes, decode: Bytes -> Option<Json>, digest: Bytes -> string)

  /** Decoding what was encoded gives it back. */
  ghost predicate Faithful(codec: Codec) {
    forall j: Json :: codec.decode(codec.encode(j)) == Some(j)
  }

  /** One archive entry; `intact` says its stored checksum matches its data. */
  datatype Member = Member(name: string, data: Bytes, intact: bool)

  datatype ArchiveFile = Unreadable | Zip(members: seq<Member>)

  // ----- Member names -----

  predicate IsSeparator(c: char, windows: bool) {
    c == '/' || (windows && c == '\\')
  }

  function PartLength(s: string, windows: bool): (n: nat)
    ensures n <= |s| && (n < |s| ==> IsSeparator(s[n], windows))
    ensures forall i :: 0 <= i < n ==> !IsSeparator(s[i], windows)
  {
    if s == "" || IsSeparator(s[0], windows) then 0 else 1 + PartLength(s[1..], windows)
  }

  predicate NoParentPart(s: string, windows: bool)
    decreases |s|
  {
    var n := PartLength(s, windows);
    s[..n] != ".." && (n == |s| || NoParentPart(s[n + 1..], windows))
  }

  /** `validate_zip_member_name` accepts the name. */
  predicate SafeName(s: string) {
    && s != "" && '\0' !in s
    && s[0] != '/'
    && !(|s| >= 2 && s[1] == ':')
    && !(|s| >= 2 && s[0] == '\\' && IsSeparator(s[1], true))
    && NoParentPart(s, false) && NoParentPart(s, true)
  }

  /** A separator ends a component: the slash, and for Windows paths the backslash too. */
  predicate Bounds(s: string, i: int, windows: bool) {
    i < 0 || i >= |s| || s[i] == '/' || (windows && s[i] == '\\')
  }

  /** Two dots stand alone at i, between separators or the ends of the name. */
  predicate ParentAt(s: string, i: nat, windows: bool) {
    i + 2 <= |s| && s[i] == '.' && s[i + 1] == '.' && Bounds(s, i - 1, windows) && Bounds(s, i + 2, windows)
  }

  /** The name climbs to a parent directory, read as a POSIX or as a Windows path. */
  predicate Climbs(s: string) {
    exists i :: 0 <= i < |s| && (ParentAt(s, i, false) || ParentAt(s, i, true))
  }

  lemma ParentShifts(s: string, n: nat, i: nat, windows: bool)
    requires n == PartLength(s, windows)
    ensures ParentAt(s, i, windows) <==> if i == 0 then s[..n] == ".." else i > n && n < |s| && ParentAt(s[n + 1..], i - n - 1, windows)
  {
    if i == 0 {
      assert s[..n] == ".." <==> n == 2 && s[0] == '.' && s[1] == '.';
    }
  }

  ghost predicate HasParent(s: string, windows: bool) {
    exists i: nat :: ParentAt(s, i, windows)
  }

  lemma {:induction false} NoParentPartIff(s: string, windows: bool)
    ensures NoParentPart(s, windows) <==> !HasParent(s, windows)
    decreases |s|
  {
    var n := PartLength(s, windows);
    if n < |s| {
      NoParentPartIff(s[n + 1..], windows);
      HasParentShifts(s, n, s[n + 1..], windows);
    } else {
      forall i: nat ensures ParentAt(s, i, windows) <==> i == 0 && s[..n] == ".." {
        ParentShifts(s, n, i, windows);
      }
      assert s[..n] == ".." ==> ParentAt(s, 0, windows);
    }
  }

  lemma HasParentShifts(s: string, n: nat, rest: string, windows: bool)
    requires n == PartLength(s, windows) && n < |s| && rest == s[n + 1..]
    ensures HasParent(s, windows) <==> s[..n] == ".." || HasParent(rest, windows)
  {
    RestShifts(s, n, rest, windows);
    ParentShifts(s, n, 0, windows);
  }

  lemma RestShifts(s: string, n: nat, rest: string, windows: bool)
    requires n == PartLength(s, windows) && n < |s| && rest == s[n + 1..]
    ensures forall j: nat :: ParentAt(rest, j, windows) ==> ParentAt(s, n + 1 + j, windows)
    ensures forall i: nat :: ParentAt(s, i, windows) && i > 0 ==> i > n && ParentAt(rest, i - n - 1, windows)
  {
    forall j: nat | ParentAt(rest, j, windows) ensures ParentAt(s, n + 1 + j, windows) {
      ParentShifts(s, n, n + 1 + j, windows);
    }
    forall i: nat | ParentAt(s, i, windows) && i > 0 ensures i > n && ParentAt(rest, i - n - 1, windows) {
      ParentShifts(s, n, i, windows);
    }
  }

  /**
   A name is safe exactly when it is not empty, has no NUL, is not absolute, has no Windows drive or share,
   and does not climb to a parent directory.
   */
  lemma SafeNameIff(s: string)
    ensures SafeName(s) <==>
      && |s| > 0 && (forall i :: 0 <= i < |s| ==> s[i] != '\0')
      && s[0] != '/'
      && (|s| == 1 || s[1] != ':')
      && (|s| == 1 || s[0] != '\\' || (s[1] != '\\' && s[1] != '/'))
      && !Climbs(s)
  {
    if s != "" {
      NoParentPartIff(s, false);
      NoParentPartIff(s, true);
      assert Climbs(s) <==> HasParent(s, false) || HasParent(s, true);
      assert '\0' in s <==> exists i :: 0 <= i < |s| && s[i] == '\0';
    }
  }

  // ----- The name a file is stored under -----

  /** A component that path normalization keeps. A safe name has no parent component. */
  predicate IsPart(s: string) {
    s != "" && s != "." && '/' !in s
  }

  function Components(s: string): (parts: seq<string>)
    ensures forall i :: 0 <= i < |parts| ==> IsPart(parts[i])
    decreases |s|
  {
    var n := PartLength(s, false);
    var head := if IsPart(s[..n]) then [s[..n]] else [];
    if n == |s| then head else head + Components(s[n + 1..])
  }

  function JoinParts(parts: seq<string>): string {
    if parts == [] then "" else if |parts| == 1 then parts[0] else parts[0] + "/" + JoinParts(parts[1..])
  }

  /** `ZipFile.write` stores a file under the normalized path of the name it is given. */
  function StoredName(name: string): string {
    var stored := JoinParts(Components(name));
    if stored == "" then "." else stored
  }

  lemma {:induction false} PartLengthOf(part: string, rest: string)
    requires '/' !in part && (rest == "" || rest[0] == '/')
    ensures PartLength(part + rest, false) == |part|
  {
    if part == "" {
      assert part + rest == rest;
    } else {
      assert (part + rest)[1..] == part[1..] + rest && (part + rest)[0] == part[0];
      PartLengthOf(part[1..], rest);
    }
  }

  /** No component is empty or a dot. */
  predicate PlainName(s: string)
    decreases |s|
  {
    var n := PartLength(s, false);
    IsPart(s[..n]) && (n == |s| || PlainName(s[n + 1..]))
  }

  /** Joining components and splitting again gives them back. */
  lemma {:induction false} ComponentsOfJoin(parts: seq<string>)
    requires parts != [] && forall i :: 0 <= i < |parts| ==> IsPart(parts[i])
    ensures Components(JoinParts(parts)) == parts && PlainName(JoinParts(parts)) && JoinParts(parts) != ""
  {
    var first, s := parts[0], JoinParts(parts);
    if |parts| == 1 {
      PartLengthOf(first, "");
      assert s + "" == s && s[..|s|] == s;
    } else {
      var rest := "/" + JoinParts(parts[1..]);
      assert s == first + rest;
      PartLengthOf(first, rest);
      assert s[..|first|] == first && s[|first| + 1..] == JoinParts(parts[1..]);
      ComponentsOfJoin(parts[1..]);
      assert parts == [first] + parts[1..];
    }
  }

  lemma {:induction false} JoinOfComponents(s: string)
    requires PlainName(s)
    ensures Components(s) != [] && JoinParts(Components(s)) == s
    decreases |s|
  {
    var n := PartLength(s, false);
    if n == |s| {
      assert s[..n] == s && Components(s) == [s];
    } else {
      var rest := Components(s[n + 1..]);
      JoinOfComponents(s[n + 1..]);
      assert Components(s) == [s[..n]] + rest;
      assert ([s[..n]] + rest)[1..] == rest;
      assert s == s[..n] + "/" + s[n + 1..];
    }
  }

  /** Storing keeps a name exactly when it is plain, or the dot itself; a stored name is stored as it is. */
  lemma {:induction false} StoredNameIff(name: string)
    ensures StoredName(name) == name <==> name == "." || PlainName(name)
    ensures StoredName(StoredName(name)) == StoredName(name)
  {
    if PlainName(name) {
      JoinOfComponents(name);
    }
    var parts := Components(name);
    if parts != [] {
      ComponentsOfJoin(parts);
    }
    assert Components(".") == [];
  }

  // ----- Lookups -----

  function MemberNames(members: seq<Member>): set<string> {
    set i | 0 <= i < |members| :: members[i].name
  }

  /** The entry a name resolves to: the last one. */
  function Find(members: seq<Member>, name: string): (m: Member)
    requires name in MemberNames(members)
    ensures m in members && m.name == name
  {
    if members[|members| - 1].name == name then members[|members| - 1] else Find(members[..|members| - 1], name)
  }

  lemma {:induction false} FindUnique(members: seq<Member>, i: nat)
    requires i < |members| && AllDifferent(members, |members|)
    ensures members[i].name in MemberNames(members) && Find(members, members[i].name) == members[i]
  {
    var last := |members| - 1;
    if i < last {
      assert members[..last][i] == members[i];
      FindUnique(members[..last], i);
    }
  }

  function Field(fields: map<string, Json>, key: string): Json {
    if key in fields then fields[key] else JNull
  }

  /** `isinstance(value, int)` also accepts booleans. */
  function AsInteger(j: Json): Option<int> {
    match j
    case JNumber(n) => Some(n)
    case JBool(b) => Some(if b then 1 else 0)
    case _ => None
  }

  // ----- What a clean archive is -----

  datatype Options = Options(
    manifestName: string, expected: map<string, Json>, required: seq<string>, allowLegacy: bool, checksums: bool)

  predicate AllSafe(members: seq<Member>) {
    forall i :: 0 <= i < |members| ==> SafeName(members[i].name)
  }

  predicate AllDifferent(members: seq<Member>, n: nat)
    requires n <= |members|
  {
    forall i, j :: 0 <= i < j < n ==> members[i].name != members[j].name
  }

  predicate AllIntact(members: seq<Member>) {
    forall i :: 0 <= i < |members| ==> members[i].intact
  }

  predicate MembersClean(members: seq<Member>) {
    AllSafe(members) && AllIntact(members) && AllDifferent(members, |members|)
  }

  predicate NamedEntry(item: Json) {
    item.JObject? && Field(item.fields, "name").JString? && Field(item.fields, "name").text != ""
  }

  function EntryName(item: Json): string {
    if NamedEntry(item) then Field(item.fields, "name").text else ""
  }

  predicate SizeMatches(item: Json, data: Bytes)
    requires item.JObject?
  {
    var size := AsInteger(Field(item.fields, "size"));
    size.Some? ==> size.value == |data|
  }

  predicate DigestMatches(codec: Codec, item: Json, data: Bytes)
    requires item.JObject?
  {
    var digest := Field(item.fields, "sha256");
    digest.JString? && digest.text != "" ==> digest.text == codec.digest(data)
  }

  predicate EntryClean(codec: Codec, members: seq<Member>, items: seq<Json>, i: nat, checksums: bool)
    requires i < |items|
  {
    && NamedEntry(items[i]) && SafeName(EntryName(items[i]))
    && (forall j :: 0 <= j < i ==> EntryName(items[j]) != EntryName(items[i]))
    && EntryName(items[i]) in MemberNames(members)
    && (checksums ==> var data := Find(members, EntryName(items[i])).data;
          SizeMatches(items[i], data) && DigestMatches(codec, items[i], data))
  }

  predicate EntriesClean(codec: Codec, members: seq<Member>, items: seq<Json>, n: nat, checksums: bool)
    requires n <= |items|
  {
    forall i :: 0 <= i < n ==> EntryClean(codec, members, items, i, checksums)
  }

  predicate FilesClean(codec: Codec, members: seq<Member>, files: Json, o: Options) {
    match files
    case JNull => o.allowLegacy
    case JList(items) => EntriesClean(codec, members, items, |items|, o.checksums)
    case _ => false
  }

  predicate ManifestClean(codec: Codec, members: seq<Member>, o: Options)
    requires o.manifestName in MemberNames(members)
  {
    var parsed := codec.decode(Find(members, o.manifestName).data);
    && parsed.Some? && parsed.value.JObject?
    && (forall key :: key in o.expected ==> Field(parsed.value.fields, key) == o.expected[key])
    && FilesClean(codec, members, Field(parsed.value.fields, "files"), o)
  }

  predicate Clean(codec: Codec, archive: ArchiveFile, o: Options) {
    && archive.Zip?
    && MembersClean(archive.members)
    && (forall i :: 0 <= i < |o.required| ==> SafeName(o.required[i]) && o.required[i] in MemberNames(archive.members))
    && o.manifestName in MemberNames(archive.members)
    && ManifestClean(codec, archive.members, o)
  }

  // ----- The same in fields -----

  /** The entry gives the member's name. */
  ghost predicate Names(item: Json, member: Member) {
    item.JObject? && "name" in item.fields && item.fields["name"] == JString(member.name) && member.name != ""
  }

  /** The entry gives the member's name, and its size and digest as far as it gives any. A true flag counts as one. */
  ghost predicate Describes(codec: Codec, item: Json, member: Member) {
    && Names(item, member)
    && ("size" in item.fields ==>
          (item.fields["size"].JNumber? ==> item.fields["size"].number == |member.data|)
          && (item.fields["size"].JBool? ==> |member.data| == if item.fields["size"].flag then 1 else 0))
    && ("sha256" in item.fields && item.fields["sha256"].JString? && |item.fields["sha256"].text| > 0 ==>
          item.fields["sha256"].text == codec.digest(member.data))
  }

  /** Some member is named by the entry, safely and for the first time, and described by it if checksums count. */
  lemma EntryCleanIff(codec: Codec, members: seq<Member>, items: seq<Json>, i: nat, checksums: bool)
    requires i < |items| && AllDifferent(members, |members|)
    ensures EntryClean(codec, members, items, i, checksums) <==>
      && (exists k: nat :: k < |members| && (if checksums then Describes(codec, items[i], members[k]) else Names(items[i], members[k])) && SafeName(members[k].name))
      && forall j :: 0 <= j < i ==> EntryName(items[j]) != EntryName(items[i])
  {
    if EntryClean(codec, members, items, i, checksums) {
      var k :| 0 <= k < |members| && members[k].name == EntryName(items[i]);
      FindUnique(members, k);
      DescribesIff(codec, items[i], members[k]);
    }
    forall k: nat | k < |members| && Names(items[i], members[k]) ensures EntryName(items[i]) == members[k].name && Find(members, members[k].name) == members[k] {
      FindUnique(members, k);
      DescribesIff(codec, items[i], members[k]);
    }
  }

  lemma DescribesIff(codec: Codec, item: Json, member: Member)
    ensures Describes(codec, item, member) <==>
      NamedEntry(item) && EntryName(item) == member.name && SizeMatches(item, member.data) && DigestMatches(codec, item, member.data)
  {
  }

  /** The field has the value; a missing field counts as null. */
  ghost predicate Says(fields: map<string, Json>, key: string, value: Json) {
    if key in fields then fields[key] == value else value == JNull
  }

  /** The member holds the manifest: an object with every expected field, and a clean list of the files unless an old archive may do without. */
  ghost predicate IsManifest(codec: Codec, members: seq<Member>, m: Member, o: Options) {
    && codec.decode(m.data).Some? && codec.decode(m.data).value.JObject?
    && var fields := codec.decode(m.data).value.fields;
       && (forall key :: key in o.expected ==> Says(fields, key, o.expected[key]))
       && (if Says(fields, "files", JNull) then o.allowLegacy
           else fields["files"].JList? && forall i :: 0 <= i < |fields["files"].items| ==> EntryClean(codec, members, fields["files"].items, i, o.checksums))
  }

  /** An archive is clean exactly when its members are safe, intact and different, the required ones are there, and so is a manifest. */
  lemma CleanIff(codec: Codec, members: seq<Member>, o: Options)
    ensures Clean(codec, Zip(members), o) <==>
      && (forall i :: 0 <= i < |members| ==> SafeName(members[i].name) && members[i].intact)
      && (forall i, j :: 0 <= i < j < |members| ==> members[i].name != members[j].name)
      && (forall name :: name in o.required ==> SafeName(name) && exists i :: 0 <= i < |members| && members[i].name == name)
      && (exists i :: 0 <= i < |members| && members[i].name == o.manifestName && IsManifest(codec, members, members[i], o))
    ensures !Clean(codec, Unreadable, o)
  {
    RequiredIff(members, o.required);
    forall i | 0 <= i < |members| && members[i].name == o.manifestName && AllDifferent(members, |members|)
      ensures o.manifestName in MemberNames(members) && (ManifestClean(codec, members, o) <==> IsManifest(codec, members, members[i], o)) {
      FindUnique(members, i);
    }
  }

  lemma RequiredIff(members: seq<Member>, required: seq<string>)
    ensures (forall i :: 0 <= i < |required| ==> SafeName(required[i]) && required[i] in MemberNames(members)) <==>
      forall name :: name in required ==> SafeName(name) && exists i :: 0 <= i < |members| && members[i].name == name
  {
    forall i | 0 <= i < |required| ensures required[i] in required {
    }
  }

  // ----- The verifier -----

  datatype Problem =
    | Invalid | UnsafeMember(name: string) | DuplicateMembers | BadChecksum(name: string) | MissingMember(name: string)
    | ManifestNotJson | ManifestNotObject | UnexpectedField(key: string) | NoFilesMetadata | FilesNotList
    | EntryNotObject | EntryWithoutName | DuplicateEntry(name: string) | WrongSize(name: string) | WrongDigest(name: string)

  datatype Verification = Verification(
    manifest: Option<map<string, Json>>, members: set<string>, files: seq<string>,
    errors: seq<Problem>, mismatches: seq<string>)

  /** The names in turn; an unsafe one ends the pass. */
  method CheckNames(members: seq<Member>) returns (errors: seq<Problem>, allSafe: bool)
    ensures allSafe <==> AllSafe(members)
    ensures errors == [] <==> AllSafe(members) && AllDifferent(members, |members|)
  {
    var names: set<string> := {};
    var duplicate := false;
    for n := 0 to |members|
      invariant forall i :: 0 <= i < n ==> SafeName(members[i].name)
      invariant names == set i | 0 <= i < n :: members[i].name
      invariant duplicate <==> !AllDifferent(members, n)
    {
      var name := members[n].name;
      if !SafeName(name) {
        return [UnsafeMember(name)], false;
      }
      duplicate := duplicate || name in names;
      names := names + {name};
    }
    errors := if duplicate then [DuplicateMembers] else [];
    allSafe := true;
  }

  /** The first damaged member is reported. */
  method CheckIntact(members: seq<Member>) returns (errors: seq<Problem>)
    ensures errors == [] <==> AllIntact(members)
  {
    for n := 0 to |members|
      invariant forall i :: 0 <= i < n ==> members[i].intact
    {
      if !members[n].intact {
        return [BadChecksum(members[n].name)];
      }
    }
    errors := [];
  }

  method CheckMembers(members: seq<Member>) returns (errors: seq<Problem>, allSafe: bool)
    ensures errors == [] <==> MembersClean(members)
    ensures allSafe <==> AllSafe(members)
    ensures errors == [] ==> AllIntact(members) && allSafe
  {
    errors, allSafe := CheckNames(members);
    if allSafe {
      var damage := CheckIntact(members);
      errors := errors + damage;
    }
  }

  method CheckRequired(required: seq<string>, names: set<string>) returns (errors: seq<Problem>)
    ensures errors == [] <==> forall i :: 0 <= i < |required| ==> SafeName(required[i]) && required[i] in names
  {
    errors := [];
    for n := 0 to |required|
      invariant errors == [] <==> forall i :: 0 <= i < n ==> SafeName(required[i]) && required[i] in names
    {
      if !SafeName(required[n]) {
        errors := errors + [UnsafeMember(required[n])];
      } else if required[n] !in names {
        errors := errors + [MissingMember(required[n])];
      }
    }
  }

  method CheckFields(fields: map<string, Json>, expected: map<string, Json>) returns (errors: seq<Problem>)
    ensures errors == [] <==> forall key :: key in expected ==> Field(fields, key) == expected[key]
  {
    errors := [];
    var left := expected.Keys;
    while left != {}
      invariant left <= expected.Keys
      invariant errors == [] <==> forall key :: key in expected.Keys - left ==> Field(fields, key) == expected[key]
      decreases left
    {
      var key :| key in left;
      if Field(fields, key) != expected[key] {
        errors := errors + [UnexpectedField(key)];
      }
      assert expected.Keys - (left - {key}) == (expected.Keys - left) + {key};
      left := left - {key};
    }
    assert expected.Keys - left == expected.Keys;
  }

  /** The entry itself, before it is compared with the others. */
  predicate EntryFits(codec: Codec, members: seq<Member>, item: Json, checksums: bool) {
    && NamedEntry(item) && SafeName(EntryName(item)) && EntryName(item) in MemberNames(members)
    && (checksums ==> var data := Find(members, EntryName(item)).data;
          SizeMatches(item, data) && DigestMatches(codec, item, data))
  }

  /** `aborted`: the archive turned out to be unreadable at this entry. */
  method CheckEntry(codec: Codec, members: seq<Member>, item: Json, seen: set<string>, checksums: bool)
    returns (errors: seq<Problem>, listed: bool, mismatch: bool, aborted: bool)
    ensures errors == [] ==> EntryFits(codec, members, item, checksums) && EntryName(item) !in seen
    ensures EntryFits(codec, members, item, checksums) && EntryName(item) !in seen && Find(members, EntryName(item)).intact ==> errors == []
    ensures listed <==> NamedEntry(item) && SafeName(EntryName(item)) && EntryName(item) !in seen
    ensures mismatch ==> WrongDigest(EntryName(item)) in errors
    ensures aborted ==> errors != [] && exists i :: 0 <= i < |members| && !members[i].intact
  {
    errors, listed, mismatch, aborted := [], false, false, false;
    if !item.JObject? {
      return [EntryNotObject], listed, mismatch, aborted;
    }
    if !NamedEntry(item) {
      return [EntryWithoutName], listed, mismatch, aborted;
    }
    var name := EntryName(item);
    if !SafeName(name) {
      return [UnsafeMember(name)], listed, mismatch, aborted;
    }
    if name in seen {
      return [DuplicateEntry(name)], listed, mismatch, aborted;
    }
    listed := true;
    if name !in MemberNames(members) {
      return [MissingMember(name)], listed, mismatch, aborted;
    }
    if checksums {
      var member := Find(members, name);
      if !SizeMatches(item, member.data) {
        errors := errors + [WrongSize(name)];
      }
      var digest := Field(item.fields, "sha256");
      if digest.JString? && digest.text != "" {
        if !member.intact {
          errors, aborted := errors + [Invalid], true;
        } else if digest.text != codec.digest(member.data) {
          errors, mismatch := errors + [WrongDigest(name)], true;
        }
      }
    }
  }

  function NamesBefore(items: seq<Json>, n: nat): set<string>
    requires n <= |items|
  {
    set i | 0 <= i < n :: EntryName(items[i])
  }

  lemma EntryNamesStep(items: seq<Json>, n: nat)
    requires n < |items|
    ensures EntryNames(items[..n + 1]) == EntryNames(items[..n]) + [EntryName(items[n])]
    ensures NamesBefore(items, n + 1) == NamesBefore(items, n) + {EntryName(items[n])}
    ensures EntryName(items[n]) !in NamesBefore(items, n) <==> forall j :: 0 <= j < n ==> EntryName(items[j]) != EntryName(items[n])
  {
    assert items[..n + 1] == items[..n] + [items[n]];
  }

  lemma EntriesCleanStep(codec: Codec, members: seq<Member>, items: seq<Json>, n: nat, checksums: bool)
    requires n < |items|
    ensures EntriesClean(codec, members, items, n + 1, checksums) <==>
      EntriesClean(codec, members, items, n, checksums) && EntryFits(codec, members, items[n], checksums) && EntryName(items[n]) !in NamesBefore(items, n)
  {
    EntryNamesStep(items, n);
    assert EntryClean(codec, members, items, n, checksums) <==> EntryFits(codec, members, items[n], checksums) && EntryName(items[n]) !in NamesBefore(items, n);
  }

  /** Entries are all visited; reading a damaged member aborts the pass, its damage being reported already. */
  method CheckEntries(codec: Codec, members: seq<Member>, items: seq<Json>, checksums: bool)
    returns (errors: seq<Problem>, files: seq<string>, mismatches: seq<string>)
    ensures AllIntact(members) ==> (errors == [] <==> EntriesClean(codec, members, items, |items|, checksums))
    ensures errors == [] ==> files == EntryNames(items)
    ensures forall m :: m in mismatches ==> WrongDigest(m) in errors
    ensures forall i :: 0 <= i < |files| ==> SafeName(files[i])
  {
    errors, files, mismatches := [], [], [];
    var seen: set<string> := {};
    for n := 0 to |items|
      invariant AllIntact(members) ==> (errors == [] <==> EntriesClean(codec, members, items, n, checksums))
      invariant errors == [] ==> files == EntryNames(items[..n]) && seen == NamesBefore(items, n)
      invariant forall m :: m in mismatches ==> WrongDigest(m) in errors
      invariant forall i :: 0 <= i < |files| ==> SafeName(files[i])
    {
      EntryNamesStep(items, n);
      var bad, listed, mismatch, aborted := CheckEntry(codec, members, items[n], seen, checksums);
      EntriesCleanStep(codec, members, items, n, checksums);
      if listed {
        seen, files := seen + {EntryName(items[n])}, files + [EntryName(items[n])];
      }
      if mismatch {
        mismatches := mismatches + [EntryName(items[n])];
      }
      errors := errors + bad;
      if aborted {
        return;
      }
    }
    assert items[..|items|] == items;
  }

  function EntryNames(items: seq<Json>): seq<string> {
    seq(|items|, i requires 0 <= i < |items| => EntryName(items[i]))
  }

  method CheckManifest(codec: Codec, members: seq<Member>, fields: map<string, Json>, o: Options)
    returns (errors: seq<Problem>, files: seq<string>, mismatches: seq<string>)
    ensures AllIntact(members) ==>
      (errors == [] <==> (forall key :: key in o.expected ==> Field(fields, key) == o.expected[key]) && FilesClean(codec, members, Field(fields, "files"), o))
    ensures forall m :: m in mismatches ==> WrongDigest(m) in errors
    ensures forall i :: 0 <= i < |files| ==> SafeName(files[i])
  {
    files, mismatches := [], [];
    errors := CheckFields(fields, o.expected);
    match Field(fields, "files") {
      case JNull =>
        if !o.allowLegacy {
          errors := errors + [NoFilesMetadata];
        }
      case JList(items) =>
        var bad;
        bad, files, mismatches := CheckEntries(codec, members, items, o.checksums);
        errors := errors + bad;
      case _ =>
        errors := errors + [FilesNotList];
    }
  }

  /** No error is reported exactly for clean archives. An unsafe manifest name is the caller's mistake and raises. */
  method Verify(codec: Codec, archive: ArchiveFile, o: Options) returns (r: Result<Verification, Problem>)
    ensures r.Failure? <==> !SafeName(o.manifestName)
    ensures r.Success? ==> (r.value.errors == [] <==> Clean(codec, archive, o))
    ensures r.Success? && r.value.errors == [] ==>
      && r.value.members == MemberNames(archive.members)
      && r.value.manifest == Some(codec.decode(Find(archive.members, o.manifestName).data).value.fields)
    ensures r.Success? ==> forall m :: m in r.value.mismatches ==> WrongDigest(m) in r.value.errors
    ensures r.Success? && r.value.errors == [] ==>
      forall name :: name in MemberNames(archive.members) || name in o.required || name in r.value.files ==> name != "" && name[0] != '/' && !Climbs(name)
  {
    r := VerifyNames(codec, archive, o);
    if r.Success? && r.value.errors == [] {
      forall name | name in MemberNames(archive.members) || name in o.required || name in r.value.files ensures name != "" && name[0] != '/' && !Climbs(name) {
        SafeNameIff(name);
      }
    }
  }

  method VerifyNames(codec: Codec, archive: ArchiveFile, o: Options) returns (r: Result<Verification, Problem>)
    ensures r.Failure? <==> !SafeName(o.manifestName)
    ensures r.Success? ==> (r.value.errors == [] <==> Clean(codec, archive, o))
    ensures r.Success? && r.value.errors == [] ==>
      && r.value.members == MemberNames(archive.members)
      && r.value.manifest == Some(codec.decode(Find(archive.members, o.manifestName).data).value.fields)
    ensures r.Success? ==> forall m :: m in r.value.mismatches ==> WrongDigest(m) in r.value.errors
    ensures r.Success? ==> forall i :: 0 <= i < |r.value.files| ==> SafeName(r.value.files[i])
  {
    if !SafeName(o.manifestName) {
      return Failure(UnsafeMember(o.manifestName));
    }
    if archive.Unreadable? {
      return Success(Verification(None, {}, [], [Invalid], []));
    }
    var members := archive.members;
    var errors, allSafe := CheckMembers(members);
    if !allSafe {
      return Success(Verification(None, {}, [], errors, []));
    }
    var names := MemberNames(members);
    var manifest := None;
    if o.manifestName !in names {
      errors := errors + [MissingMember(o.manifestName)];
    } else if !Find(members, o.manifestName).intact {
      return Success(Verification(None, names, [], errors + [Invalid], []));
    } else {
      var parsed := codec.decode(Find(members, o.manifestName).data);
      if parsed.None? {
        errors := errors + [ManifestNotJson];
      } else if !parsed.value.JObject? {
        errors := errors + [ManifestNotObject];
      } else {
        manifest := Some(parsed.value.fields);
      }
    }
    var missing := CheckRequired(o.required, names);
    errors := errors + missing;
    var files, mismatches := [], [];
    if manifest.Some? {
      var bad;
      bad, files, mismatches := CheckManifest(codec, members, manifest.value, o);
      errors := errors + bad;
    }
    r := Success(Verification(manifest, names, files, errors, mismatches));
  }
}
