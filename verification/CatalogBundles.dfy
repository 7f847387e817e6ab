/** Loading the bundles of all plugins, source plugins and dynamic releases alike. */
module CatalogBundles {
  import opened GoStrings
  import opened CatalogFlatten
  import opened CatalogLoader

  type Bundles = map<string, Catalog>

  /** One plugin's contribution under its trimmed ID. */
  datatype Entry = Entry(id: string, bundle: Catalog)

  /** Empty bundles are not stored; a later bundle of the same ID replaces an earlier one. */
  function Store(entries: seq<Entry>): Bundles {
    if entries == [] then map[]
    else
      var init, e := Store(entries[..|entries| - 1]), entries[|entries| - 1];
      if e.bundle == map[] then init else init[e.id := e.bundle]
  }

  /** A source plugin's ID and the contents at the locale's directory; None without a file system. */
  datatype SourcePlugin = SourcePlugin(id: string, files: Option<seq<string>>)

  datatype Release = Release(pluginID: string, assets: seq<LocaleAsset>)

  /** What the plugin brings, empty if it is skipped. */
  ghost function BundleOf(l: Loader, decode: Decoder, p: SourcePlugin): Catalog {
    if p.files.None? || TrimSpace(p.id) == "" then map[]
    else Filtered(l, TrimSpace(p.id), FilesLoaded(l, decode, p.files.value))
  }

  ghost function SourceEntry(l: Loader, decode: Decoder, p: SourcePlugin): seq<Entry> {
    if p.files.None? || TrimSpace(p.id) == "" then []
    else [Entry(TrimSpace(p.id), BundleOf(l, decode, p))]
  }

  ghost function SourceEntries(l: Loader, decode: Decoder, ps: seq<SourcePlugin>): seq<Entry> {
    if ps == [] then []
    else SourceEntries(l, decode, ps[..|ps| - 1]) + SourceEntry(l, decode, ps[|ps| - 1])
  }

  ghost function ReleaseEntry(l: Loader, decode: Decoder, locale: string, r: Release): seq<Entry> {
    var id := TrimSpace(r.pluginID);
    if id == "" then []
    else [Entry(id, Filtered(l, id, AssetsLoaded(l, decode, ForLocale(r.assets, locale))))]
  }

  ghost function ReleaseEntries(l: Loader, decode: Decoder, locale: string, rs: seq<Release>): seq<Entry> {
    if rs == [] then []
    else ReleaseEntries(l, decode, locale, rs[..|rs| - 1]) + ReleaseEntry(l, decode, locale, rs[|rs| - 1])
  }

  /** What the entries of one more plugin, none or a single one, do to the store. */
  lemma StoreOne(before: seq<Entry>, more: seq<Entry>)
    requires |more| <= 1
    ensures Store(before + more)
            == if more == [] || more[0].bundle == map[] then Store(before)
               else Store(before)[more[0].id := more[0].bundle]
  {
    if more == [] {
      assert before + more == before;
    } else {
      assert (before + more)[..|before|] == before;
    }
  }

  lemma SourceStep(l: Loader, decode: Decoder, ps: seq<SourcePlugin>, k: nat)
    requires k < |ps|
    ensures SourceEntries(l, decode, ps[..k + 1]) == SourceEntries(l, decode, ps[..k]) + SourceEntry(l, decode, ps[k])
  {
    assert ps[..k + 1][..k] == ps[..k];
  }

  lemma SourceStored(l: Loader, decode: Decoder, ps: seq<SourcePlugin>, k: nat)
    requires k < |ps|
    ensures Store(SourceEntries(l, decode, ps[..k + 1]))
            == if BundleOf(l, decode, ps[k]) == map[] then Store(SourceEntries(l, decode, ps[..k]))
               else Store(SourceEntries(l, decode, ps[..k]))[TrimSpace(ps[k].id) := BundleOf(l, decode, ps[k])]
  {
    SourceStep(l, decode, ps, k);
    StoreOne(SourceEntries(l, decode, ps[..k]), SourceEntry(l, decode, ps[k]));
  }

  lemma ReleaseStep(l: Loader, decode: Decoder, locale: string, rs: seq<Release>, k: nat)
    requires k < |rs|
    ensures ReleaseEntries(l, decode, locale, rs[..k + 1])
            == ReleaseEntries(l, decode, locale, rs[..k]) + ReleaseEntry(l, decode, locale, rs[k])
  {
    assert rs[..k + 1][..k] == rs[..k];
  }

  method LoadDynamicPluginBundles(l: Loader, decode: Decoder, locale: string, releases: seq<Release>)
    returns (bundles: Bundles)
    ensures bundles == Store(ReleaseEntries(l, decode, locale, releases))
  {
    bundles := map[];
    for k := 0 to |releases|
      invariant bundles == Store(ReleaseEntries(l, decode, locale, releases[..k]))
    {
      ReleaseStep(l, decode, locale, releases, k);
      StoreOne(ReleaseEntries(l, decode, locale, releases[..k]), ReleaseEntry(l, decode, locale, releases[k]));
      var pluginID := TrimSpace(releases[k].pluginID);
      if pluginID == "" {
        continue;
      }
      var bundle := DynamicPluginBundle(l, decode, pluginID, locale, releases[k].assets);
      if |bundle| > 0 {
        bundles := bundles[pluginID := bundle];
      }
    }
    assert releases[..|releases|] == releases;
  }

  /** The loop over the plugins in the order sort.Slice left them; ties between equal raw IDs may be
      ordered either way, so the order is a parameter. */
  method LoadSortedPluginBundles(l: Loader, decode: Decoder, sorted: seq<SourcePlugin>) returns (bundles: Bundles)
    ensures bundles == Store(SourceEntries(l, decode, sorted))
  {
    bundles := map[];
    for k := 0 to |sorted|
      invariant bundles == Store(SourceEntries(l, decode, sorted[..k]))
    {
      SourceStored(l, decode, sorted, k);
      var pluginID := TrimSpace(sorted[k].id);
      if sorted[k].files.None? || pluginID == "" {
        continue;
      }
      var bundle := SourcePluginBundle(l, decode, pluginID, sorted[k].files.value);
      if |bundle| > 0 {
        bundles := bundles[pluginID := bundle];
      }
    }
    assert sorted[..|sorted|] == sorted;
  }

  lemma {:induction false} StoredIdsAreListed(entries: seq<Entry>, id: string)
    ensures id in Store(entries) ==> exists i :: 0 <= i < |entries| && entries[i].id == id
  {
    if entries != [] {
      var init := entries[..|entries| - 1];
      StoredIdsAreListed(init, id);
      if id in Store(init) {
        var i :| 0 <= i < |init| && init[i].id == id;
        assert entries[i].id == id;
      }
    }
  }

  predicate SolidIds(entries: seq<Entry>) {
    forall i :: 0 <= i < |entries| ==> entries[i].id != "" && Trimmed(entries[i].id, Whitespace)
  }

  lemma {:induction false} EntriesHaveSolidIds(l: Loader, decode: Decoder, locale: string, ps: seq<SourcePlugin>,
                                               rs: seq<Release>)
    ensures SolidIds(SourceEntries(l, decode, ps)) && SolidIds(ReleaseEntries(l, decode, locale, rs))
    decreases |ps| + |rs|
  {
    if ps != [] { EntriesHaveSolidIds(l, decode, locale, ps[..|ps| - 1], rs); }
    if rs != [] { EntriesHaveSolidIds(l, decode, locale, ps, rs[..|rs| - 1]); }
  }

  /** Neither loader stores anything under an ID that is blank or has blanks around it. */
  lemma StoredIdsAreSolid(l: Loader, decode: Decoder, locale: string, ps: seq<SourcePlugin>, rs: seq<Release>,
                          id: string)
    requires id in Store(SourceEntries(l, decode, ps)) || id in Store(ReleaseEntries(l, decode, locale, rs))
    ensures id != "" && Trimmed(id, Whitespace)
  {
    EntriesHaveSolidIds(l, decode, locale, ps, rs);
    StoredIdsAreListed(SourceEntries(l, decode, ps), id);
    StoredIdsAreListed(ReleaseEntries(l, decode, locale, rs), id);
  }

  // ----- Which bundle is stored

  /** The last non-empty bundle listed under an ID. */
  function Winner(entries: seq<Entry>, id: string): Option<Catalog> {
    if entries == [] then None
    else
      var e := entries[|entries| - 1];
      if e.id == id && e.bundle != map[] then Some(e.bundle) else Winner(entries[..|entries| - 1], id)
  }

  lemma {:induction false} StoreHoldsWinner(entries: seq<Entry>, id: string)
    ensures id in Store(entries) <==> Winner(entries, id).Some?
    ensures id in Store(entries) ==> Store(entries)[id] == Winner(entries, id).value
  {
    if entries != [] { StoreHoldsWinner(entries[..|entries| - 1], id); }
  }

  ghost predicate SameWinners(a: seq<Entry>, b: seq<Entry>) { forall id :: Winner(a, id) == Winner(b, id) }

  /** Two stores are equal exactly when every ID has the same last non-empty bundle. */
  lemma StoresEqualIff(a: seq<Entry>, b: seq<Entry>)
    ensures Store(a) == Store(b) <==> SameWinners(a, b)
  {
    if Store(a) == Store(b) {
      forall id ensures Winner(a, id) == Winner(b, id) {
        StoreHoldsWinner(a, id);
        StoreHoldsWinner(b, id);
      }
    }
    if SameWinners(a, b) {
      SameWinnersSameStore(a, b);
    }
  }

  lemma SameWinnersSameStore(a: seq<Entry>, b: seq<Entry>)
    requires SameWinners(a, b)
    ensures Store(a) == Store(b)
  {
    forall id ensures id in Store(a) <==> id in Store(b)
              ensures id in Store(a) ==> Store(a)[id] == Store(b)[id]
    {
      assert Winner(a, id) == Winner(b, id);
      StoreHoldsWinner(a, id);
      StoreHoldsWinner(b, id);
    }
  }

  predicate Conflict(a: Entry, b: Entry) {
    a.id == b.id && a.bundle != map[] && b.bundle != map[] && a.bundle != b.bundle
  }

  /** No two plugins have different non-empty bundles under one trimmed ID. */
  ghost predicate Compatible(entries: seq<Entry>) {
    forall a, b :: a in entries && b in entries ==> !Conflict(a, b)
  }

  lemma {:induction false} WinnerIsListed(entries: seq<Entry>, id: string)
    ensures Winner(entries, id).Some? ==>
              Winner(entries, id).value != map[] && Entry(id, Winner(entries, id).value) in entries
  {
    if entries != [] {
      WinnerIsListed(entries[..|entries| - 1], id);
      assert entries == entries[..|entries| - 1] + [entries[|entries| - 1]];
    }
  }

  lemma {:induction false} ListedHasWinner(entries: seq<Entry>, e: Entry)
    requires e in entries && e.bundle != map[]
    ensures Winner(entries, e.id).Some?
  {
    if e != entries[|entries| - 1] {
      assert entries == entries[..|entries| - 1] + [entries[|entries| - 1]];
      ListedHasWinner(entries[..|entries| - 1], e);
    }
  }

  /** Without conflicts, the store holds exactly the non-empty bundles. */
  lemma StoreHoldsMembers(entries: seq<Entry>, id: string, bundle: Catalog)
    requires Compatible(entries)
    ensures id in Store(entries) && Store(entries)[id] == bundle <==> bundle != map[] && Entry(id, bundle) in entries
  {
    StoreHoldsWinner(entries, id);
    WinnerIsListed(entries, id);
    var e := Entry(id, bundle);
    if bundle != map[] && e in entries {
      ListedHasWinner(entries, e);
      assert !Conflict(e, Entry(id, Winner(entries, id).value));
    }
  }

  /** Without conflicts the order of the plugins does not matter. */
  lemma StoreForgetsOrder(a: seq<Entry>, b: seq<Entry>)
    requires Compatible(a)
    requires forall e :: e in a <==> e in b
    ensures Store(a) == Store(b)
  {
    forall id ensures id in Store(a) <==> id in Store(b)
              ensures id in Store(a) ==> Store(a)[id] == Store(b)[id]
    {
      if id in Store(a) {
        StoreHoldsMembers(a, id, Store(a)[id]);
        StoreHoldsMembers(b, id, Store(a)[id]);
      }
      if id in Store(b) {
        StoreHoldsMembers(a, id, Store(b)[id]);
        StoreHoldsMembers(b, id, Store(b)[id]);
      }
    }
  }

  predicate DistinctIds(entries: seq<Entry>) {
    entries == [] ||
    (!HasId(entries[..|entries| - 1], entries[|entries| - 1].id) && DistinctIds(entries[..|entries| - 1]))
  }

  predicate HasId(entries: seq<Entry>, id: string) {
    entries != [] && (entries[|entries| - 1].id == id || HasId(entries[..|entries| - 1], id))
  }

  lemma {:induction false} MemberHasId(entries: seq<Entry>, e: Entry)
    requires e in entries
    ensures HasId(entries, e.id)
  {
    if e != entries[|entries| - 1] {
      assert entries == entries[..|entries| - 1] + [entries[|entries| - 1]];
      MemberHasId(entries[..|entries| - 1], e);
    }
  }

  /** Distinct trimmed IDs leave nothing to conflict. */
  lemma {:induction false} DistinctIsCompatible(entries: seq<Entry>)
    requires DistinctIds(entries)
    ensures Compatible(entries)
  {
    if entries != [] {
      var init, last := entries[..|entries| - 1], entries[|entries| - 1];
      assert entries == init + [last];
      DistinctIsCompatible(init);
      forall e | e in init ensures e.id != last.id { MemberHasId(init, e); }
    }
  }

  // ----- The two loaders agree

  /** The plugins and the releases carry the same contents for the locale, ID by ID. */
  predicate SameContents(ps: seq<SourcePlugin>, rs: seq<Release>, locale: string) {
    if ps == [] then rs == []
    else
      && rs != []
      && TrimSpace(ps[|ps| - 1].id) == TrimSpace(rs[|rs| - 1].pluginID)
      && ps[|ps| - 1].files == Some(ForLocale(rs[|rs| - 1].assets, locale))
      && SameContents(ps[..|ps| - 1], rs[..|rs| - 1], locale)
  }

  lemma {:induction false} SameEntries(l: Loader, decode: Decoder, ps: seq<SourcePlugin>, rs: seq<Release>,
                                       locale: string)
    requires BlankUndecodable(decode) && SameContents(ps, rs, locale)
    ensures SourceEntries(l, decode, ps) == ReleaseEntries(l, decode, locale, rs)
  {
    if ps != [] {
      SameEntries(l, decode, ps[..|ps| - 1], rs[..|rs| - 1], locale);
      PipelinesAgree(l, decode, TrimSpace(ps[|ps| - 1].id), ForLocale(rs[|rs| - 1].assets, locale));
    }
  }

  lemma {:induction false} EntryOfPlugin(l: Loader, decode: Decoder, ps: seq<SourcePlugin>, e: Entry)
    returns (p: SourcePlugin)
    requires e in SourceEntries(l, decode, ps)
    ensures p in ps && e in SourceEntry(l, decode, p)
  {
    p := ps[|ps| - 1];
    if e !in SourceEntry(l, decode, p) { p := EntryOfPlugin(l, decode, ps[..|ps| - 1], e); }
  }

  lemma {:induction false} PluginOfEntry(l: Loader, decode: Decoder, ps: seq<SourcePlugin>, p: SourcePlugin, e: Entry)
    requires p in ps && e in SourceEntry(l, decode, p)
    ensures e in SourceEntries(l, decode, ps)
  {
    if p != ps[|ps| - 1] {
      assert ps == ps[..|ps| - 1] + [ps[|ps| - 1]];
      PluginOfEntry(l, decode, ps[..|ps| - 1], p, e);
    }
  }

  lemma SameMembers(l: Loader, decode: Decoder, a: seq<SourcePlugin>, b: seq<SourcePlugin>, e: Entry)
    requires forall p :: p in a ==> p in b
    ensures e in SourceEntries(l, decode, a) ==> e in SourceEntries(l, decode, b)
  {
    if e in SourceEntries(l, decode, a) {
      var p := EntryOfPlugin(l, decode, a, e);
      PluginOfEntry(l, decode, b, p, e);
    }
  }

  /** The plugin has a non-empty bundle under the trimmed ID. */
  ghost predicate Contributes(l: Loader, decode: Decoder, p: SourcePlugin, id: string) {
    TrimSpace(p.id) == id && BundleOf(l, decode, p) != map[]
  }

  /** sort.Slice by raw ID; raw IDs are the keys of the registry, so there are no ties. */
  predicate RawAscending(ps: seq<SourcePlugin>) {
    forall i, j :: 0 <= i < j < |ps| ==> Less(ps[i].id, ps[j].id)
  }

  /** Of the plugins with a non-empty bundle under the ID, the one with the greatest raw ID. */
  ghost predicate Greatest(l: Loader, decode: Decoder, ps: seq<SourcePlugin>, id: string, p: SourcePlugin) {
    && p in ps && Contributes(l, decode, p, id)
    && forall q :: q in ps && Contributes(l, decode, q, id) && q != p ==> Less(q.id, p.id)
  }

  /** The last plugin of the list with a non-empty bundle under the ID. */
  ghost predicate LastFor(l: Loader, decode: Decoder, ps: seq<SourcePlugin>, id: string, k: nat) {
    && k < |ps| && Contributes(l, decode, ps[k], id)
    && forall j :: k < j < |ps| ==> !Contributes(l, decode, ps[j], id)
  }

  lemma WinnerStep(l: Loader, decode: Decoder, init: seq<SourcePlugin>, p: SourcePlugin, id: string)
    ensures Winner(SourceEntries(l, decode, init + [p]), id)
            == if Contributes(l, decode, p, id) then Some(BundleOf(l, decode, p))
               else Winner(SourceEntries(l, decode, init), id)
  {
    assert (init + [p])[..|init|] == init;
    var before, one := SourceEntries(l, decode, init), SourceEntry(l, decode, p);
    if one == [] {
      assert before + one == before;
    } else {
      assert one == [Entry(TrimSpace(p.id), BundleOf(l, decode, p))];
      assert (before + one)[..|before|] == before;
    }
  }

  lemma LastStep(l: Loader, decode: Decoder, init: seq<SourcePlugin>, p: SourcePlugin, id: string, k: nat)
    requires LastFor(l, decode, init + [p], id, k)
    ensures k == |init| ==> Contributes(l, decode, p, id)
    ensures k < |init| ==> !Contributes(l, decode, p, id) && LastFor(l, decode, init, id, k)
  {
    var ps := init + [p];
    assert ps[|init|] == p && forall j :: 0 <= j < |init| ==> ps[j] == init[j];
  }

  lemma LastOfAppend(l: Loader, decode: Decoder, init: seq<SourcePlugin>, p: SourcePlugin, id: string, k: nat)
    requires if Contributes(l, decode, p, id) then k == |init| else LastFor(l, decode, init, id, k)
    ensures LastFor(l, decode, init + [p], id, k)
  {
    var ps := init + [p];
    assert ps[|init|] == p && forall j :: 0 <= j < |init| ==> ps[j] == init[j];
  }

  lemma {:induction false} WinnerIsLast(l: Loader, decode: Decoder, ps: seq<SourcePlugin>, id: string, k: nat)
    requires LastFor(l, decode, ps, id, k)
    ensures Winner(SourceEntries(l, decode, ps), id) == Some(BundleOf(l, decode, ps[k]))
    decreases |ps|
  {
    var init, last := ps[..|ps| - 1], ps[|ps| - 1];
    assert ps == init + [last];
    LastStep(l, decode, init, last, id, k);
    WinnerStep(l, decode, init, last, id);
    if k < |init| { WinnerIsLast(l, decode, init, id, k); }
  }

  lemma {:induction false} NoWinner(l: Loader, decode: Decoder, ps: seq<SourcePlugin>, id: string)
    requires forall p :: p in ps ==> !Contributes(l, decode, p, id)
    ensures Winner(SourceEntries(l, decode, ps), id).None?
    decreases |ps|
  {
    if ps != [] {
      var init, last := ps[..|ps| - 1], ps[|ps| - 1];
      assert ps == init + [last];
      WinnerStep(l, decode, init, last, id);
      NoWinner(l, decode, init, id);
    }
  }

  lemma {:induction false} SomeLast(l: Loader, decode: Decoder, ps: seq<SourcePlugin>, id: string, p: SourcePlugin)
    returns (k: nat)
    requires p in ps && Contributes(l, decode, p, id)
    ensures LastFor(l, decode, ps, id, k)
    decreases |ps|
  {
    var init, last := ps[..|ps| - 1], ps[|ps| - 1];
    assert ps == init + [last];
    if Contributes(l, decode, last, id) {
      k := |init|;
    } else {
      k := SomeLast(l, decode, init, id, p);
    }
    LastOfAppend(l, decode, init, last, id, k);
  }

  /** In raw-ID order the last one is the greatest one. */
  lemma LastIsGreatest(l: Loader, decode: Decoder, sorted: seq<SourcePlugin>, id: string, k: nat)
    requires RawAscending(sorted) && LastFor(l, decode, sorted, id, k)
    ensures Greatest(l, decode, sorted, id, sorted[k])
  {
    forall q | q in sorted && Contributes(l, decode, q, id) && q != sorted[k] ensures Less(q.id, sorted[k].id) {
      var j :| 0 <= j < |sorted| && sorted[j] == q;
    }
  }

  lemma GreatestIsUnique(l: Loader, decode: Decoder, ps: seq<SourcePlugin>, id: string,
                         p: SourcePlugin, q: SourcePlugin)
    requires Greatest(l, decode, ps, id, p) && Greatest(l, decode, ps, id, q)
    ensures p == q
  {
    LessIsStrictTotalOrder(p.id, q.id, p.id);
  }

  /** Under every trimmed ID, the plugin of greatest raw ID brings what the last release brings. */
  ghost predicate GreatestIsLast(l: Loader, decode: Decoder, registered: seq<SourcePlugin>) {
    forall id, p, k: nat ::
      Greatest(l, decode, registered, id, p) && LastFor(l, decode, registered, id, k) ==>
        BundleOf(l, decode, p) == BundleOf(l, decode, registered[k])
  }

  lemma WinnersAgree(l: Loader, decode: Decoder, registered: seq<SourcePlugin>, sorted: seq<SourcePlugin>, id: string)
    requires (forall p :: p in sorted <==> p in registered) && RawAscending(sorted)
    requires exists p :: p in registered && Contributes(l, decode, p, id)
    ensures exists p, k: nat ::
              && Greatest(l, decode, registered, id, p) && LastFor(l, decode, registered, id, k)
              && Winner(SourceEntries(l, decode, sorted), id) == Some(BundleOf(l, decode, p))
              && Winner(SourceEntries(l, decode, registered), id) == Some(BundleOf(l, decode, registered[k]))
  {
    var p :| p in registered && Contributes(l, decode, p, id);
    assert p in sorted;
    var i := SomeLast(l, decode, sorted, id, p);
    var k := SomeLast(l, decode, registered, id, p);
    WinnerIsLast(l, decode, sorted, id, i);
    WinnerIsLast(l, decode, registered, id, k);
    LastIsGreatest(l, decode, sorted, id, i);
    assert sorted[i] in sorted && Greatest(l, decode, registered, id, sorted[i]);
  }

  /** The source loader sorts by raw ID and the releases come in their own order: the loaders agree
      exactly when, under every trimmed ID, the plugin of greatest raw ID with a non-empty bundle brings
      the bundle that the last such release brings. */
  lemma LoadersAgreeIff(l: Loader, decode: Decoder, locale: string, registered: seq<SourcePlugin>,
                        sorted: seq<SourcePlugin>, releases: seq<Release>)
    requires BlankUndecodable(decode) && SameContents(registered, releases, locale)
    requires (forall p :: p in sorted <==> p in registered) && RawAscending(sorted)
    ensures Store(SourceEntries(l, decode, sorted)) == Store(ReleaseEntries(l, decode, locale, releases))
            <==> GreatestIsLast(l, decode, registered)
  {
    var a, b := SourceEntries(l, decode, sorted), SourceEntries(l, decode, registered);
    SameEntries(l, decode, registered, releases, locale);
    StoresEqualIff(a, b);
    if SameWinners(a, b) {
      forall id, p, k: nat | Greatest(l, decode, registered, id, p) && LastFor(l, decode, registered, id, k)
        ensures BundleOf(l, decode, p) == BundleOf(l, decode, registered[k])
      {
        WinnersAgree(l, decode, registered, sorted, id);
        var q, i: nat :| && Greatest(l, decode, registered, id, q) && LastFor(l, decode, registered, id, i)
                         && Winner(a, id) == Some(BundleOf(l, decode, q))
                         && Winner(b, id) == Some(BundleOf(l, decode, registered[i]));
        GreatestIsUnique(l, decode, registered, id, p, q);
        assert i == k;
      }
    }
    if GreatestIsLast(l, decode, registered) {
      forall id ensures Winner(a, id) == Winner(b, id) {
        if exists p :: p in registered && Contributes(l, decode, p, id) {
          WinnersAgree(l, decode, registered, sorted, id);
        } else {
          NoWinner(l, decode, registered, id);
          NoWinner(l, decode, sorted, id);
        }
      }
    }
  }

  /** So they agree whenever plugins that share a trimmed ID do not conflict, in any order. */
  lemma LoadersAgree(l: Loader, decode: Decoder, locale: string, registered: seq<SourcePlugin>,
                     sorted: seq<SourcePlugin>, releases: seq<Release>)
    requires BlankUndecodable(decode) && SameContents(registered, releases, locale)
    requires forall p :: p in sorted <==> p in registered
    requires Compatible(SourceEntries(l, decode, registered))
    ensures Store(SourceEntries(l, decode, sorted)) == Store(ReleaseEntries(l, decode, locale, releases))
  {
    var a, b := SourceEntries(l, decode, sorted), SourceEntries(l, decode, registered);
    SameEntries(l, decode, registered, releases, locale);
    forall e ensures e in a <==> e in b {
      SameMembers(l, decode, sorted, registered, e);
      SameMembers(l, decode, registered, sorted, e);
    }
    StoreForgetsOrder(b, a);
  }

  /** The plugins with the one at `i` moved to the end. */
  function MovedLast(ps: seq<SourcePlugin>, i: nat): (r: seq<SourcePlugin>)
    requires i < |ps|
    ensures multiset(r) == multiset(ps)
  {
    assert ps == ps[..i] + ([ps[i]] + ps[i + 1..]);
    ps[..i] + ps[i + 1..] + [ps[i]]
  }

  lemma LastDecides(l: Loader, decode: Decoder, ps: seq<SourcePlugin>, i: nat, e: Entry)
    requires i < |ps| && e in SourceEntry(l, decode, ps[i]) && e.bundle != map[]
    ensures Winner(SourceEntries(l, decode, MovedLast(ps, i)), e.id) == Some(e.bundle)
  {
    var init := ps[..i] + ps[i + 1..];
    assert MovedLast(ps, i)[..|init|] == init;
    var before, one := SourceEntries(l, decode, init), SourceEntry(l, decode, ps[i]);
    assert one == [e];
    assert (before + one)[..|before|] == before;
  }

  ghost predicate AgreesInEveryOrder(l: Loader, decode: Decoder, locale: string, registered: seq<SourcePlugin>,
                                     releases: seq<Release>)
  {
    forall sorted: seq<SourcePlugin> :: multiset(sorted) == multiset(registered) ==>
      Store(SourceEntries(l, decode, sorted)) == Store(ReleaseEntries(l, decode, locale, releases))
  }

  lemma ConflictDisagrees(l: Loader, decode: Decoder, locale: string, registered: seq<SourcePlugin>,
                          releases: seq<Release>, a: Entry, b: Entry)
    requires a in SourceEntries(l, decode, registered) && b in SourceEntries(l, decode, registered) && Conflict(a, b)
    ensures !AgreesInEveryOrder(l, decode, locale, registered, releases)
  {
    var p := EntryOfPlugin(l, decode, registered, a);
    var q := EntryOfPlugin(l, decode, registered, b);
    var i :| 0 <= i < |registered| && registered[i] == p;
    var j :| 0 <= j < |registered| && registered[j] == q;
    LastDecides(l, decode, registered, i, a);
    LastDecides(l, decode, registered, j, b);
    StoreHoldsWinner(SourceEntries(l, decode, MovedLast(registered, i)), a.id);
    StoreHoldsWinner(SourceEntries(l, decode, MovedLast(registered, j)), a.id);
  }

  /** Plugins registered as source plugins, in whatever order, and the same contents released
      dynamically give the same bundles exactly when no two plugins that share a trimmed ID bring
      different non-empty bundles. */
  lemma LoadersAgreeInEveryOrderIff(l: Loader, decode: Decoder, locale: string, registered: seq<SourcePlugin>,
                                    releases: seq<Release>)
    requires BlankUndecodable(decode) && SameContents(registered, releases, locale)
    ensures AgreesInEveryOrder(l, decode, locale, registered, releases)
            <==> Compatible(SourceEntries(l, decode, registered))
  {
    var es := SourceEntries(l, decode, registered);
    if Compatible(es) {
      forall sorted: seq<SourcePlugin> | multiset(sorted) == multiset(registered)
        ensures Store(SourceEntries(l, decode, sorted)) == Store(ReleaseEntries(l, decode, locale, releases))
      {
        forall p ensures p in sorted <==> p in registered {
          assert p in multiset(sorted) <==> p in multiset(registered);
        }
        LoadersAgree(l, decode, locale, registered, sorted, releases);
      }
    } else {
      var a, b :| a in es && b in es && Conflict(a, b);
      ConflictDisagrees(l, decode, locale, registered, releases, a, b);
    }
  }
}
