/** The catalog: registry records as read from the applications file, and the program entries
    the launcher derives from them once at start-up (main.py, the module-level build loop). */
module Catalog {
  import opened Wrappers
  import Text

  /** The three installation back-ends, in the order an entry lists them. */
  datatype Kind = Winget | Choco | Installer {
    /** Position in the fixed preference order winget, choco, installer. */
    function Rank(): nat {
      match this
      case Winget => 0
      case Choco => 1
      case Installer => 2
    }
  }

  /** One way to install a program: a winget package id, a Chocolatey package id, or the URL of a
      vendor installer. */
  datatype Source = WingetId(id: string) | ChocoId(id: string) | InstallerUrl(url: string) {
    function Kind(): Kind {
      match this
      case WingetId(_) => Winget
      case ChocoId(_) => Choco
      case InstallerUrl(_) => Installer
    }
  }

  /** One registry record: its key and the string fields it carries (`None` when absent). */
  datatype Record = Record(
    key: string,
    content: Option<string>,
    description: Option<string>,
    category: Option<string>,
    winget: Option<string>,
    choco: Option<string>,
    download: Option<string>)

  /** A program entry. `category` is kept exactly as the record gives it; headings normalise it
      only when the list is grouped. */
  datatype Program = Program(category: string, name: string, desc: string, sources: seq<Source>)

  const DefaultDescription: string := ""
  const DefaultCategory: string := "Other"
  /** The placeholder a package-id field holds when the package manager does not carry the program. */
  const Unavailable: string := "na"

  /** Python truthiness of `val.get(field)`: present and non-empty. */
  predicate Truthy(field: Option<string>) {
    field.Some? && field.value != []
  }

  /** A winget or Chocolatey id is used when present, non-empty and not "na" in any letter case. */
  predicate PackageIdUsable(field: Option<string>) {
    Truthy(field) && Text.Lower(field.value) != Unavailable
  }

  /** Kinds strictly increase along the list: each kind at most once, in the fixed order. */
  predicate InPreferenceOrder(sources: seq<Source>) {
    forall i, j :: 0 <= i < j < |sources| ==> sources[i].Kind().Rank() < sources[j].Kind().Rank()
  }

  /** The sources of one record. The download URL is checked for emptiness only: a download field
      holding "na" still yields an installer source. */
  function SourcesOf(r: Record): (sources: seq<Source>)
    ensures InPreferenceOrder(sources)
    ensures forall s :: s in sources <==>
      || (PackageIdUsable(r.winget) && s == WingetId(r.winget.value))
      || (PackageIdUsable(r.choco) && s == ChocoId(r.choco.value))
      || (Truthy(r.download) && s == InstallerUrl(r.download.value))
  {
    (if PackageIdUsable(r.winget) then [WingetId(r.winget.value)] else [])
    + (if PackageIdUsable(r.choco) then [ChocoId(r.choco.value)] else [])
    + (if Truthy(r.download) then [InstallerUrl(r.download.value)] else [])
  }

  /** The program entry of one record. */
  function EntryOf(r: Record): Program {
    Program(r.category.GetOr(DefaultCategory), r.content.GetOr(r.key),
            r.description.GetOr(DefaultDescription), SourcesOf(r))
  }

  /** The build loop: one entry per record, in registry order, including records that end up with
      no source at all. */
  method BuildPrograms(registry: seq<Record>) returns (programs: seq<Program>)
    ensures |programs| == |registry|
    ensures forall i :: 0 <= i < |registry| ==>
      && programs[i].name == (if registry[i].content.Some? then registry[i].content.value else registry[i].key)
      && programs[i].desc == (if registry[i].description.Some? then registry[i].description.value else DefaultDescription)
      && programs[i].category == (if registry[i].category.Some? then registry[i].category.value else DefaultCategory)
      && programs[i].sources == SourcesOf(registry[i])
  {
    programs := [];
    var k := 0;
    while k < |registry|
      invariant k <= |registry|
      invariant programs == seq(k, i requires 0 <= i < k => EntryOf(registry[i]))
    {
      programs := programs + [EntryOf(registry[k])];
      k := k + 1;
    }
  }

  /** The kinds that occur anywhere in the catalog: the launcher offers one check box per kind,
      and all of them start checked. */
  function AvailableKinds(programs: seq<Program>): (kinds: set<Kind>)
    ensures forall k :: k in kinds <==> exists p, s :: p in programs && s in p.sources && s.Kind() == k
  {
    set p, s | p in programs && s in p.sources :: s.Kind()
  }

  /** Over the entries built from a registry, a kind gets a check box exactly when some record
      carries a usable field for it. */
  lemma AvailableKindsOfRegistry(registry: seq<Record>, programs: seq<Program>)
    requires |programs| == |registry|
    requires forall i :: 0 <= i < |registry| ==> programs[i].sources == SourcesOf(registry[i])
    ensures Winget in AvailableKinds(programs) <==> exists r :: r in registry && PackageIdUsable(r.winget)
    ensures Choco in AvailableKinds(programs) <==> exists r :: r in registry && PackageIdUsable(r.choco)
    ensures Installer in AvailableKinds(programs) <==> exists r :: r in registry && Truthy(r.download)
  {
    KindAvailableIffUsable(registry, programs, Winget);
    KindAvailableIffUsable(registry, programs, Choco);
    KindAvailableIffUsable(registry, programs, Installer);
  }

  lemma KindAvailableIffUsable(registry: seq<Record>, programs: seq<Program>, k: Kind)
    requires |programs| == |registry|
    requires forall i :: 0 <= i < |registry| ==> programs[i].sources == SourcesOf(registry[i])
    ensures k in AvailableKinds(programs) <==> exists r :: r in registry && FieldUsable(r, k)
  {
    if k in AvailableKinds(programs) {
      var p, s :| p in programs && s in p.sources && s.Kind() == k;
      var i :| 0 <= i < |programs| && programs[i] == p;
      assert HasKind(programs[i].sources, k);
      SourcesHaveKind(registry[i], k);
      assert registry[i] in registry;
    }
    if exists r :: r in registry && FieldUsable(r, k) {
      var r :| r in registry && FieldUsable(r, k);
      var i :| 0 <= i < |registry| && registry[i] == r;
      SourcesHaveKind(r, k);
      assert HasKind(programs[i].sources, k);
      var s :| s in programs[i].sources && s.Kind() == k;
      assert programs[i] in programs;
    }
  }

  predicate HasKind(sources: seq<Source>, k: Kind) {
    exists s :: s in sources && s.Kind() == k
  }

  lemma SourcesHaveKind(r: Record, k: Kind)
    ensures HasKind(SourcesOf(r), k) <==> FieldUsable(r, k)
  {
    KindPresence(r);
  }

  /** The registry field that provides kind `k` is usable. */
  predicate FieldUsable(r: Record, k: Kind) {
    match k
    case Winget => PackageIdUsable(r.winget)
    case Choco => PackageIdUsable(r.choco)
    case Installer => Truthy(r.download)
  }

  /** An id spelled "na" in any case is the same as no id; the download field has no such rule. */
  lemma UnavailableIsAbsent(r: Record, x: string)
    requires Text.Lower(x) == Unavailable
    ensures SourcesOf(r.(winget := Some(x))) == SourcesOf(r.(winget := None))
    ensures SourcesOf(r.(choco := Some(x))) == SourcesOf(r.(choco := None))
    ensures InstallerUrl(x) in SourcesOf(r.(download := Some(x)))
  {
  }

  /** Which kinds a record provides, one fact per kind. */
  lemma KindPresence(r: Record)
    ensures (exists s :: s in SourcesOf(r) && s.Kind() == Winget) <==> PackageIdUsable(r.winget)
    ensures (exists s :: s in SourcesOf(r) && s.Kind() == Choco) <==> PackageIdUsable(r.choco)
    ensures (exists s :: s in SourcesOf(r) && s.Kind() == Installer) <==> Truthy(r.download)
  {
    if PackageIdUsable(r.winget) { assert WingetId(r.winget.value) in SourcesOf(r); }
    if PackageIdUsable(r.choco) { assert ChocoId(r.choco.value) in SourcesOf(r); }
    if Truthy(r.download) { assert InstallerUrl(r.download.value) in SourcesOf(r); }
  }

  /** A record whose three source fields are all absent, empty or (for the ids) "na" still yields
      an entry, with no source. */
  lemma NoUsableFieldMeansNoSource(r: Record)
    requires !PackageIdUsable(r.winget) && !PackageIdUsable(r.choco) && !Truthy(r.download)
    ensures EntryOf(r).sources == []
    ensures EntryOf(r).name == r.content.GetOr(r.key)
  {
  }

  /** With every available kind checked, as at start-up, a program passes the kind filter exactly
      when it has a source. */
  lemma InitialSelectionAdmitsEverySourcedProgram(programs: seq<Program>, p: Program)
    requires p in programs
    ensures (exists s :: s in p.sources && s.Kind() in AvailableKinds(programs)) <==> p.sources != []
  {
    if p.sources != [] {
      assert p.sources[0].Kind() in AvailableKinds(programs);
    }
  }
}
