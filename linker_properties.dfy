/** What linking promises, proved about the specification `Linker.Link`
    (and so, through `Linker.LinkLibraries`'s postcondition, about the source's loop). */
module LinkerProperties {
  import opened Results
  import opened Linker

  // ---------------------------------------------------------------------------
  // Vocabulary

  /** One occurrence together with the library whose address goes there. */
  datatype Site = Site(library: string, occurrence: Occurrence)

  function OccurrenceSites(l: LibraryReference): seq<Site>
  {
    seq(|l.occurrences|, k requires 0 <= k < |l.occurrences| => Site(l.name, l.occurrences[k]))
  }

  /** Every occurrence of the library entries of one file, in iteration order. */
  function LibrarySites(libs: seq<LibraryReference>): seq<Site>
    decreases |libs|
  {
    if libs == [] then [] else LibrarySites(libs[..|libs| - 1]) + OccurrenceSites(libs[|libs| - 1])
  }

  /** Every occurrence of a link-reference map, in iteration order. */
  function Sites(refs: LinkReferences): seq<Site>
    decreases |refs|
  {
    if refs == [] then [] else Sites(refs[..|refs| - 1]) + LibrarySites(refs[|refs| - 1].libraries)
  }

  /** `ps` are the patches for `sites`: one per occurrence, carrying its library's address. */
  ghost predicate PatchesFor(ps: seq<Patch>, sites: seq<Site>, libraries: map<string, string>)
  {
    |ps| == |sites| &&
    forall k :: 0 <= k < |ps| ==>
      Resolve(sites[k].library, libraries).Ok? &&
      ps[k] == OccurrencePatch(sites[k].occurrence, Resolve(sites[k].library, libraries).value)
  }

  ghost predicate Covers(p: Patch, i: int)
  {
    p.at <= i < p.at + p.width
  }

  ghost predicate Covered(ps: seq<Patch>, i: int)
  {
    exists k :: 0 <= k < |ps| && Covers(ps[k], i)
  }

  ghost predicate Apart(p: Patch, q: Patch)
  {
    p.at + p.width <= q.at || q.at + q.width <= p.at
  }

  /** Every patch replaces exactly as many characters as it writes, inside a string of length n. */
  ghost predicate InPlace(n: nat, ps: seq<Patch>)
  {
    forall k :: 0 <= k < |ps| ==> |ps[k].hex| == ps[k].width && ps[k].at + ps[k].width <= n
  }

  ghost predicate Disjoint(ps: seq<Patch>)
  {
    forall k, l :: 0 <= k < l < |ps| ==> Apart(ps[k], ps[l])
  }

  /** The hex characters [2 + 2 * start, 2 + 2 * start + 2 * length) of an occurrence. */
  ghost predicate SiteCovers(s: Site, i: int)
  {
    2 + 2 * s.occurrence.start <= i < 2 + 2 * s.occurrence.start + 2 * s.occurrence.length
  }

  ghost predicate CoveredBySites(sites: seq<Site>, i: int)
  {
    exists k :: 0 <= k < |sites| && SiteCovers(sites[k], i)
  }

  /** A 20-byte slot lying wholly inside a bytecode string of n hex characters. */
  ghost predicate SiteFits(n: nat, s: Site)
  {
    s.occurrence.length == 20 && 2 + 2 * s.occurrence.start + 40 <= n
  }

  ghost predicate SitesApart(s: Site, t: Site)
  {
    s.occurrence.start + s.occurrence.length <= t.occurrence.start ||
    t.occurrence.start + t.occurrence.length <= s.occurrence.start
  }

  /** The shape compiler-produced link references have: 20-byte slots inside the bytecode,
      no two of them overlapping. */
  ghost predicate WellFormedSites(n: nat, sites: seq<Site>)
  {
    (forall k :: 0 <= k < |sites| ==> SiteFits(n, sites[k])) &&
    (forall k, l :: 0 <= k < l < |sites| ==> SitesApart(sites[k], sites[l]))
  }

  ghost predicate ResolvesAll(libs: seq<LibraryReference>, libraries: map<string, string>)
  {
    forall j :: 0 <= j < |libs| ==> Resolve(libs[j].name, libraries).Ok?
  }

  /** Every library named anywhere in the map has a well-formed address in `libraries`. */
  ghost predicate AllResolve(refs: LinkReferences, libraries: map<string, string>)
  {
    forall i :: 0 <= i < |refs| ==> ResolvesAll(refs[i].libraries, libraries)
  }

  ghost predicate FirstUnresolvedIn(libs: seq<LibraryReference>, libraries: map<string, string>, j: int)
  {
    0 <= j < |libs| && Resolve(libs[j].name, libraries).Err? && ResolvesAll(libs[..j], libraries)
  }

  /** Library entry j of file entry i is the first one, in iteration order, that cannot be resolved. */
  ghost predicate FirstUnresolved(refs: LinkReferences, libraries: map<string, string>, i: int, j: int)
  {
    0 <= i < |refs| && AllResolve(refs[..i], libraries) && FirstUnresolvedIn(refs[i].libraries, libraries, j)
  }

  // ---------------------------------------------------------------------------
  // One splice

  /** A splice changes the length by |hex| - width when its range lies inside the string;
      JavaScript's `slice` clamps a range running past the end, and a start past the end
      appends the address. */
  lemma SpliceLength(code: string, p: Patch)
    ensures p.at + p.width <= |code| ==> |Splice(code, p)| == |code| - p.width + |p.hex|
    ensures p.at <= |code| <= p.at + p.width ==> Splice(code, p) == code[..p.at] + p.hex
    ensures |code| < p.at ==> Splice(code, p) == code + p.hex
  {
    if |code| < p.at {
      assert code[0..|code|] == code;
    }
  }

  /** Inside the string, a splice writes `hex` at `at` and keeps what lies before and after. */
  lemma SpliceContents(code: string, p: Patch)
    requires p.at + p.width <= |code|
    ensures Splice(code, p)[..p.at] == code[..p.at]
    ensures Splice(code, p)[p.at..p.at + |p.hex|] == p.hex
    ensures Splice(code, p)[p.at + |p.hex|..] == code[p.at + p.width..]
  {
    var r := Splice(code, p);
    assert r == code[..p.at] + p.hex + code[p.at + p.width..];
  }

  /** A splice of as many characters as it removes, character by character. */
  lemma SpliceAt(code: string, p: Patch)
    requires |p.hex| == p.width && p.at + p.width <= |code|
    ensures |Splice(code, p)| == |code|
    ensures forall i :: 0 <= i < |code| ==>
      Splice(code, p)[i] == if Covers(p, i) then p.hex[i - p.at] else code[i]
  {
    assert Splice(code, p) == code[..p.at] + p.hex + code[p.at + p.width..];
  }

  // ---------------------------------------------------------------------------
  // A sequence of splices

  /** Splices that each replace as many characters as they write keep the length. */
  lemma {:induction false} ApplyKeepsLength(code: string, ps: seq<Patch>)
    requires InPlace(|code|, ps)
    ensures |Apply(code, ps)| == |code|
    decreases |ps|
  {
    if ps != [] {
      var init := ps[..|ps| - 1];
      assert InPlace(|code|, init);
      ApplyKeepsLength(code, init);
      SpliceLength(Apply(code, init), ps[|ps| - 1]);
    }
  }

  /** Splices that start at or after hex position 2 never touch the `0x` prefix. */
  lemma {:induction false} ApplyKeepsPrefix(code: string, ps: seq<Patch>)
    requires |code| >= 2
    requires forall k :: 0 <= k < |ps| ==> ps[k].at >= 2
    ensures |Apply(code, ps)| >= 2 && Apply(code, ps)[..2] == code[..2]
    decreases |ps|
  {
    if ps != [] {
      var init := ps[..|ps| - 1];
      var p := ps[|ps| - 1];
      ApplyKeepsPrefix(code, init);
      var c := Apply(code, init);
      var r := Splice(c, p);
      assert r == Slice(c, 0, p.at) + p.hex + Slice(c, p.at + p.width, |c|);
      assert |Slice(c, 0, p.at)| >= 2 && Slice(c, 0, p.at)[..2] == c[..2];
    }
  }

  /** The character at position i after the patches: written by the last patch covering i,
      or the original one when no patch covers it. */
  ghost function Written(code: string, ps: seq<Patch>, i: nat): char
    requires i < |code| && InPlace(|code|, ps)
    decreases |ps|
  {
    if ps == [] then code[i]
    else
      var p := ps[|ps| - 1];
      if Covers(p, i) then p.hex[i - p.at] else Written(code, ps[..|ps| - 1], i)
  }

  /** In-place splices, overlapping or not, leave at each position what the last patch
      covering it wrote. */
  lemma {:induction false} ApplyWritten(code: string, ps: seq<Patch>)
    requires InPlace(|code|, ps)
    ensures |Apply(code, ps)| == |code|
    ensures forall i :: 0 <= i < |code| ==> Apply(code, ps)[i] == Written(code, ps, i)
    decreases |ps|
  {
    if ps != [] {
      var init := ps[..|ps| - 1];
      assert InPlace(|code|, init);
      ApplyWritten(code, init);
      SpliceAt(Apply(code, init), ps[|ps| - 1]);
    }
  }

  lemma {:induction false} WrittenByCovering(code: string, ps: seq<Patch>, k: nat, i: nat)
    requires i < |code| && InPlace(|code|, ps) && Disjoint(ps)
    requires k < |ps| && Covers(ps[k], i)
    ensures Written(code, ps, i) == ps[k].hex[i - ps[k].at]
    decreases |ps|
  {
    var n := |ps| - 1;
    if k < n {
      var init := ps[..n];
      assert Apart(ps[k], ps[n]);
      assert InPlace(|code|, init) && Disjoint(init);
      assert init[k] == ps[k];
      WrittenByCovering(code, init, k, i);
    }
  }

  lemma {:induction false} WrittenUncovered(code: string, ps: seq<Patch>, i: nat)
    requires i < |code| && InPlace(|code|, ps) && !Covered(ps, i)
    ensures Written(code, ps, i) == code[i]
    decreases |ps|
  {
    if ps != [] {
      var n := |ps| - 1;
      var init := ps[..n];
      assert !Covers(ps[n], i);
      assert InPlace(|code|, init);
      assert !Covered(init, i) by {
        forall k | 0 <= k < n
          ensures !Covers(init[k], i)
        {
          assert init[k] == ps[k];
        }
      }
      WrittenUncovered(code, init, i);
    }
  }

  /** Disjoint in-place splices: each writes its `hex` over its own range, and every character
      no splice covers keeps its value. */
  lemma ApplyDisjoint(code: string, ps: seq<Patch>)
    requires InPlace(|code|, ps) && Disjoint(ps)
    ensures |Apply(code, ps)| == |code|
    ensures forall k, i {:trigger Covers(ps[k], i)} :: 0 <= k < |ps| && Covers(ps[k], i) ==>
      Apply(code, ps)[i] == ps[k].hex[i - ps[k].at]
    ensures forall i :: 0 <= i < |code| && !Covered(ps, i) ==> Apply(code, ps)[i] == code[i]
  {
    ApplyWritten(code, ps);
    forall k, i | 0 <= k < |ps| && Covers(ps[k], i)
      ensures Apply(code, ps)[i] == ps[k].hex[i - ps[k].at]
    {
      WrittenByCovering(code, ps, k, i);
    }
    forall i | 0 <= i < |code| && !Covered(ps, i)
      ensures Apply(code, ps)[i] == code[i]
    {
      WrittenUncovered(code, ps, i);
    }
  }

  /** The order of disjoint in-place splices does not matter: the same patches, listed in any
      order, give the same string. */
  lemma ApplyOrderIndependent(code: string, ps: seq<Patch>, qs: seq<Patch>)
    requires InPlace(|code|, ps) && Disjoint(ps)
    requires InPlace(|code|, qs) && Disjoint(qs)
    requires forall p :: p in ps <==> p in qs
    ensures Apply(code, ps) == Apply(code, qs)
  {
    ApplyDisjoint(code, ps);
    ApplyDisjoint(code, qs);
    var a, b := Apply(code, ps), Apply(code, qs);
    forall i | 0 <= i < |code|
      ensures a[i] == b[i]
    {
      CoveredBySameElements(ps, qs, i);
      if Covered(ps, i) {
        var k :| 0 <= k < |ps| && Covers(ps[k], i);
        assert ps[k] in qs;
        var l :| 0 <= l < |qs| && qs[l] == ps[k];
        assert a[i] == ps[k].hex[i - ps[k].at] == b[i];
      } else {
        assert a[i] == code[i] == b[i];
      }
    }
  }

  lemma CoveredBySameElements(ps: seq<Patch>, qs: seq<Patch>, i: int)
    requires forall p :: p in ps <==> p in qs
    ensures Covered(ps, i) <==> Covered(qs, i)
  {
    if Covered(ps, i) {
      var k :| 0 <= k < |ps| && Covers(ps[k], i);
      assert ps[k] in qs;
    }
    if Covered(qs, i) {
      var l :| 0 <= l < |qs| && Covers(qs[l], i);
      assert qs[l] in ps;
    }
  }

  /** Splicing the same disjoint in-place patches a second time changes nothing. */
  lemma ApplyIdempotent(code: string, ps: seq<Patch>)
    requires InPlace(|code|, ps) && Disjoint(ps)
    ensures Apply(Apply(code, ps), ps) == Apply(code, ps)
  {
    var r := Apply(code, ps);
    ApplyDisjoint(code, ps);
    ApplyDisjoint(r, ps);
    forall i | 0 <= i < |r|
      ensures Apply(r, ps)[i] == r[i]
    {
      if Covered(ps, i) {
        var k :| 0 <= k < |ps| && Covers(ps[k], i);
      }
    }
  }

  // ---------------------------------------------------------------------------
  // Resolving library names

  lemma {:induction false} LibraryPatchesOkIff(libs: seq<LibraryReference>, libraries: map<string, string>)
    ensures LibraryPatches(libs, libraries).Ok? <==> ResolvesAll(libs, libraries)
    decreases |libs|
  {
    if libs != [] {
      var init := libs[..|libs| - 1];
      LibraryPatchesOkIff(init, libraries);
      assert forall j :: 0 <= j < |init| ==> init[j] == libs[j];
    }
  }

  lemma {:induction false} FilePatchesOkIff(refs: LinkReferences, libraries: map<string, string>)
    ensures FilePatches(refs, libraries).Ok? <==> AllResolve(refs, libraries)
    decreases |refs|
  {
    if refs != [] {
      var init := refs[..|refs| - 1];
      FilePatchesOkIff(init, libraries);
      LibraryPatchesOkIff(refs[|refs| - 1].libraries, libraries);
      assert forall i :: 0 <= i < |init| ==> init[i] == refs[i];
    }
  }

  lemma {:induction false} LibraryPatchesFirstErr(libs: seq<LibraryReference>, libraries: map<string, string>)
    requires LibraryPatches(libs, libraries).Err?
    ensures exists j :: (FirstUnresolvedIn(libs, libraries, j) &&
      Resolve(libs[j].name, libraries).error == LibraryPatches(libs, libraries).error)
    decreases |libs|
  {
    var n := |libs| - 1;
    var init := libs[..n];
    if LibraryPatches(init, libraries).Err? {
      LibraryPatchesFirstErr(init, libraries);
      var j :| FirstUnresolvedIn(init, libraries, j) &&
        Resolve(init[j].name, libraries).error == LibraryPatches(init, libraries).error;
      assert init[..j] == libs[..j];
      assert FirstUnresolvedIn(libs, libraries, j);
    } else {
      LibraryPatchesOkIff(init, libraries);
      assert FirstUnresolvedIn(libs, libraries, n);
    }
  }

  lemma {:induction false} FilePatchesFirstErr(refs: LinkReferences, libraries: map<string, string>)
    requires FilePatches(refs, libraries).Err?
    ensures exists i, j :: (FirstUnresolved(refs, libraries, i, j) &&
      Resolve(refs[i].libraries[j].name, libraries).error == FilePatches(refs, libraries).error)
    decreases |refs|
  {
    var n := |refs| - 1;
    var init := refs[..n];
    if FilePatches(init, libraries).Err? {
      FilePatchesFirstErr(init, libraries);
      var i, j :| FirstUnresolved(init, libraries, i, j) &&
        Resolve(init[i].libraries[j].name, libraries).error == FilePatches(init, libraries).error;
      assert init[..i] == refs[..i];
      assert FirstUnresolved(refs, libraries, i, j);
    } else {
      FilePatchesOkIff(init, libraries);
      LibraryPatchesFirstErr(refs[n].libraries, libraries);
      var j :| FirstUnresolvedIn(refs[n].libraries, libraries, j) &&
        Resolve(refs[n].libraries[j].name, libraries).error == LibraryPatches(refs[n].libraries, libraries).error;
      assert FirstUnresolved(refs, libraries, n, j);
    }
  }

  lemma PatchesForAppend(ps: seq<Patch>, s: seq<Site>, qs: seq<Patch>, t: seq<Site>, libraries: map<string, string>)
    requires PatchesFor(ps, s, libraries) && PatchesFor(qs, t, libraries)
    ensures PatchesFor(ps + qs, s + t, libraries)
  {
    forall k | 0 <= k < |ps + qs|
      ensures Resolve((s + t)[k].library, libraries).Ok? &&
        (ps + qs)[k] == OccurrencePatch((s + t)[k].occurrence, Resolve((s + t)[k].library, libraries).value)
    {
      if k >= |ps| {
        assert (ps + qs)[k] == qs[k - |ps|] && (s + t)[k] == t[k - |ps|];
      }
    }
  }

  lemma {:induction false} LibraryPatchesMatchSites(libs: seq<LibraryReference>, libraries: map<string, string>)
    requires LibraryPatches(libs, libraries).Ok?
    ensures PatchesFor(LibraryPatches(libs, libraries).value, LibrarySites(libs), libraries)
    decreases |libs|
  {
    if libs != [] {
      var init := libs[..|libs| - 1];
      var last := libs[|libs| - 1];
      LibraryPatchesMatchSites(init, libraries);
      var address := Resolve(last.name, libraries).value;
      assert PatchesFor(OccurrencePatches(last.occurrences, address), OccurrenceSites(last), libraries);
      PatchesForAppend(LibraryPatches(init, libraries).value, LibrarySites(init),
                       OccurrencePatches(last.occurrences, address), OccurrenceSites(last), libraries);
    }
  }

  /** Resolving a map yields exactly one patch per occurrence, in iteration order. */
  lemma {:induction false} FilePatchesMatchSites(refs: LinkReferences, libraries: map<string, string>)
    requires FilePatches(refs, libraries).Ok?
    ensures PatchesFor(FilePatches(refs, libraries).value, Sites(refs), libraries)
    decreases |refs|
  {
    if refs != [] {
      var init := refs[..|refs| - 1];
      var last := refs[|refs| - 1];
      FilePatchesMatchSites(init, libraries);
      LibraryPatchesMatchSites(last.libraries, libraries);
      PatchesForAppend(FilePatches(init, libraries).value, Sites(init),
                       LibraryPatches(last.libraries, libraries).value, LibrarySites(last.libraries), libraries);
    }
  }

  /** Well-formed sites give in-place, disjoint patches that cover exactly the sites' ranges. */
  lemma WellFormedPatches(n: nat, ps: seq<Patch>, sites: seq<Site>, libraries: map<string, string>)
    requires PatchesFor(ps, sites, libraries) && WellFormedSites(n, sites)
    ensures InPlace(n, ps) && Disjoint(ps)
    ensures forall k, i :: 0 <= k < |ps| ==> (Covers(ps[k], i) <==> SiteCovers(sites[k], i))
  {
    forall k | 0 <= k < |ps|
      ensures |ps[k].hex| == ps[k].width && ps[k].at + ps[k].width <= n
    {
      assert SiteFits(n, sites[k]);
    }
    forall k, l | 0 <= k < l < |ps|
      ensures Apart(ps[k], ps[l])
    {
      assert SitesApart(sites[k], sites[l]);
    }
  }

  // ---------------------------------------------------------------------------
  // Linking

  /** Linking succeeds exactly when every library named in the map has a supplied,
      well-formed address. */
  lemma LinkSucceedsIff(bytecode: string, refs: LinkReferences, libraries: map<string, string>)
    ensures Link(bytecode, refs, libraries).Ok? <==> AllResolve(refs, libraries)
  {
    FilePatchesOkIff(refs, libraries);
  }

  /** A failure names the first library entry, in iteration order, that cannot be resolved:
      `MissingLibrary` exactly when no address was supplied for it. */
  lemma LinkFailsAtFirstUnresolved(bytecode: string, refs: LinkReferences, libraries: map<string, string>)
    requires Link(bytecode, refs, libraries).Err?
    ensures exists i, j :: (FirstUnresolved(refs, libraries, i, j) &&
      Resolve(refs[i].libraries[j].name, libraries).error == Link(bytecode, refs, libraries).error)
    ensures var e := Link(bytecode, refs, libraries).error;
      e.MissingLibrary? <==> e.name !in libraries
  {
    FilePatchesFirstErr(refs, libraries);
  }

  /** A library named in the map without an address makes linking fail, whatever its
      occurrence list holds. */
  lemma LinkMissingLibraryFails(bytecode: string, refs: LinkReferences, libraries: map<string, string>, i: nat, j: nat)
    requires i < |refs| && j < |refs[i].libraries| && refs[i].libraries[j].name !in libraries
    ensures Link(bytecode, refs, libraries).Err?
  {
    LinkSucceedsIff(bytecode, refs, libraries);
    assert !ResolvesAll(refs[i].libraries, libraries);
  }

  /** With no occurrences anywhere (an empty map, or only empty occurrence lists),
      a successful link returns the bytecode unchanged. */
  lemma LinkWithoutOccurrences(bytecode: string, refs: LinkReferences, libraries: map<string, string>)
    requires Sites(refs) == []
    ensures Link(bytecode, refs, libraries).Ok? ==> Link(bytecode, refs, libraries).value == bytecode
  {
    if FilePatches(refs, libraries).Ok? {
      FilePatchesMatchSites(refs, libraries);
    }
  }

  /** The `0x` prefix survives linking: every occurrence starts at hex position 2 or later. */
  lemma LinkKeepsPrefix(bytecode: string, refs: LinkReferences, libraries: map<string, string>)
    requires |bytecode| >= 2 && Link(bytecode, refs, libraries).Ok?
    ensures |Link(bytecode, refs, libraries).value| >= 2
    ensures Link(bytecode, refs, libraries).value[..2] == bytecode[..2]
  {
    var ps := FilePatches(refs, libraries).value;
    FilePatchesMatchSites(refs, libraries);
    ApplyKeepsPrefix(bytecode, ps);
  }

  /** When every occurrence is a 20-byte slot inside the bytecode, linking keeps the length. */
  lemma LinkKeepsLength(bytecode: string, refs: LinkReferences, libraries: map<string, string>)
    requires forall k :: 0 <= k < |Sites(refs)| ==> SiteFits(|bytecode|, Sites(refs)[k])
    requires Link(bytecode, refs, libraries).Ok?
    ensures |Link(bytecode, refs, libraries).value| == |bytecode|
  {
    var ps := FilePatches(refs, libraries).value;
    var sites := Sites(refs);
    FilePatchesMatchSites(refs, libraries);
    forall k | 0 <= k < |ps|
      ensures |ps[k].hex| == ps[k].width && ps[k].at + ps[k].width <= |bytecode|
    {
      assert SiteFits(|bytecode|, sites[k]);
    }
    ApplyKeepsLength(bytecode, ps);
  }

  /** The 40 hex characters of site `s` in `linked` hold its library's lower-case, `0x`-less address. */
  ghost predicate SiteWrittenIn(linked: string, s: Site, libraries: map<string, string>)
  {
    s.library in libraries && IsAddressText(libraries[s.library]) &&
    2 + 2 * s.occurrence.start + 40 <= |linked| &&
    forall i :: 0 <= i < 40 ==>
      linked[2 + 2 * s.occurrence.start + i] == ToLower(AddressDigits(libraries[s.library])[i])
  }

  /** `linked` is `code` with every site written and every other character unchanged. */
  ghost predicate WritesSites(code: string, linked: string, sites: seq<Site>, libraries: map<string, string>)
  {
    |linked| == |code| &&
    (forall k :: 0 <= k < |sites| ==> SiteWrittenIn(linked, sites[k], libraries)) &&
    (forall i :: 0 <= i < |code| && !CoveredBySites(sites, i) ==> linked[i] == code[i])
  }

  /** For well-formed link references, every occurrence of every library holds that
      library's lower-case, `0x`-less address, and every other character is unchanged. */
  lemma LinkWritesEveryOccurrence(bytecode: string, refs: LinkReferences, libraries: map<string, string>)
    requires WellFormedSites(|bytecode|, Sites(refs))
    requires Link(bytecode, refs, libraries).Ok?
    ensures WritesSites(bytecode, Link(bytecode, refs, libraries).value, Sites(refs), libraries)
  {
    var ps := FilePatches(refs, libraries).value;
    assert Link(bytecode, refs, libraries).value == Apply(bytecode, ps);
    FilePatchesMatchSites(refs, libraries);
    PatchesWriteSites(bytecode, ps, Sites(refs), libraries);
  }

  /** `LinkWritesEveryOccurrence`, stated for the patches of the sites. */
  lemma PatchesWriteSites(bytecode: string, ps: seq<Patch>, sites: seq<Site>, libraries: map<string, string>)
    requires PatchesFor(ps, sites, libraries) && WellFormedSites(|bytecode|, sites)
    ensures WritesSites(bytecode, Apply(bytecode, ps), sites, libraries)
  {
    var r := Apply(bytecode, ps);
    WellFormedPatches(|bytecode|, ps, sites, libraries);
    ApplyDisjoint(bytecode, ps);
    forall k | 0 <= k < |sites|
      ensures SiteWrittenIn(r, sites[k], libraries)
    {
      assert SiteFits(|bytecode|, sites[k]);
      forall i | 0 <= i < 40
        ensures sites[k].library in libraries && IsAddressText(libraries[sites[k].library])
        ensures r[2 + 2 * sites[k].occurrence.start + i] == ToLower(AddressDigits(libraries[sites[k].library])[i])
      {
        SiteWritten(bytecode, ps, sites, libraries, k, i);
      }
      SiteWritten(bytecode, ps, sites, libraries, k, 0);
    }
    forall i | 0 <= i < |bytecode| && !CoveredBySites(sites, i)
      ensures r[i] == bytecode[i]
    {
      assert !Covered(ps, i);
    }
  }

  lemma SiteWritten(bytecode: string, ps: seq<Patch>, sites: seq<Site>, libraries: map<string, string>, k: nat, i: nat)
    requires PatchesFor(ps, sites, libraries) && k < |sites| && i < 40 && SiteFits(|bytecode|, sites[k])
    requires InPlace(|bytecode|, ps) && |Apply(bytecode, ps)| == |bytecode|
    requires forall k, i {:trigger Covers(ps[k], i)} :: 0 <= k < |ps| && Covers(ps[k], i) ==>
      Apply(bytecode, ps)[i] == ps[k].hex[i - ps[k].at]
    ensures sites[k].library in libraries && IsAddressText(libraries[sites[k].library])
    ensures Apply(bytecode, ps)[2 + 2 * sites[k].occurrence.start + i] == ToLower(AddressDigits(libraries[sites[k].library])[i])
  {
    var address := Resolve(sites[k].library, libraries).value;
    assert ps[k] == Patch(2 + 2 * sites[k].occurrence.start, 40, address);
    assert Covers(ps[k], 2 + 2 * sites[k].occurrence.start + i);
  }


  /** Patches for sites that all occur among `others` all occur among the patches for `others`. */
  lemma PatchesIncluded(ps: seq<Patch>, sites: seq<Site>, qs: seq<Patch>, others: seq<Site>,
                        libraries: map<string, string>)
    requires PatchesFor(ps, sites, libraries) && PatchesFor(qs, others, libraries)
    requires forall s :: s in sites ==> s in others
    ensures forall p :: p in ps ==> p in qs
  {
    forall p | p in ps
      ensures p in qs
    {
      var k :| 0 <= k < |ps| && ps[k] == p;
      assert sites[k] in others;
      var l :| 0 <= l < |qs| && others[l] == sites[k];
      assert qs[l] == p;
    }
  }

  /** Patches for the same set of sites are the same set of patches. */
  lemma SameSitesSamePatches(ps: seq<Patch>, sites: seq<Site>, qs: seq<Patch>, others: seq<Site>,
                             libraries: map<string, string>)
    requires PatchesFor(ps, sites, libraries) && PatchesFor(qs, others, libraries)
    requires forall s :: s in sites <==> s in others
    ensures forall p :: p in ps <==> p in qs
  {
    PatchesIncluded(ps, sites, qs, others, libraries);
    PatchesIncluded(qs, others, ps, sites, libraries);
  }

  /** For well-formed link references, the order in which files, libraries and occurrences are
      visited does not matter: two maps listing the same occurrences of the same libraries link
      to the same bytecode. */
  lemma LinkOrderIndependent(bytecode: string, refs: LinkReferences, others: LinkReferences, libraries: map<string, string>)
    requires WellFormedSites(|bytecode|, Sites(refs)) && WellFormedSites(|bytecode|, Sites(others))
    requires forall s :: s in Sites(refs) <==> s in Sites(others)
    requires Link(bytecode, refs, libraries).Ok? && Link(bytecode, others, libraries).Ok?
    ensures Link(bytecode, refs, libraries) == Link(bytecode, others, libraries)
  {
    var ps := FilePatches(refs, libraries).value;
    var qs := FilePatches(others, libraries).value;
    FilePatchesMatchSites(refs, libraries);
    FilePatchesMatchSites(others, libraries);
    WellFormedPatches(|bytecode|, ps, Sites(refs), libraries);
    WellFormedPatches(|bytecode|, qs, Sites(others), libraries);
    SameSitesSamePatches(ps, Sites(refs), qs, Sites(others), libraries);
    ApplyOrderIndependent(bytecode, ps, qs);
  }

  /** For well-formed link references, linking an already linked bytecode with the same
      references and addresses returns it unchanged: linking is idempotent. */
  lemma LinkIdempotent(bytecode: string, refs: LinkReferences, libraries: map<string, string>)
    requires WellFormedSites(|bytecode|, Sites(refs))
    requires Link(bytecode, refs, libraries).Ok?
    ensures Link(Link(bytecode, refs, libraries).value, refs, libraries) == Link(bytecode, refs, libraries)
  {
    var ps := FilePatches(refs, libraries).value;
    FilePatchesMatchSites(refs, libraries);
    WellFormedPatches(|bytecode|, ps, Sites(refs), libraries);
    ApplyIdempotent(bytecode, ps);
  }

  // ---------------------------------------------------------------------------
  // Addresses and the deployment's own call

  /** Normalising is idempotent: the normalised form, with or without `0x`, normalises to itself. */
  lemma NormaliseIdempotent(s: string)
    requires NormaliseAddress(s).Some?
    ensures NormaliseAddress(NormaliseAddress(s).value) == NormaliseAddress(s)
    ensures NormaliseAddress("0x" + NormaliseAddress(s).value) == NormaliseAddress(s)
  {
    var a := NormaliseAddress(s).value;
    assert AddressDigits(a) == a by {
      assert a[..2] != "0x" by {
        assert IsLowerHexDigit(a[1]);
      }
    }
    assert AddressDigits("0x" + a) == a by {
      assert ("0x" + a)[..2] == "0x";
      assert ("0x" + a)[2..] == a;
    }
    forall i | 0 <= i < 40
      ensures ToLower(a[i]) == a[i] && IsHexDigit(a[i])
    {
      assert IsLowerHexDigit(a[i]);
    }
    assert NormaliseAddress(a).value == a;
    assert NormaliseAddress("0x" + a).value == a;
  }

  /** The link-reference map the deployment passes for the position descriptor. */
  function DescriptorReferences(): LinkReferences
  {
    [FileReference("NFTDescriptor.sol", [LibraryReference("NFTDescriptor", [Occurrence(1261, 20)])])]
  }

  /** Writing a single occurrence: its 40 hex characters hold the address, and everything
      before and after it is kept. */
  lemma WritesSingleSite(code: string, linked: string, site: Site, libraries: map<string, string>)
    requires WritesSites(code, linked, [site], libraries) && SiteFits(|code|, site)
    ensures var at := 2 + 2 * site.occurrence.start;
      site.library in libraries && IsAddressText(libraries[site.library]) &&
      |linked| == |code| && linked[..at] == code[..at] && linked[at + 40..] == code[at + 40..] &&
      forall i :: 0 <= i < 40 ==> linked[at + i] == ToLower(AddressDigits(libraries[site.library])[i])
  {
    var at := 2 + 2 * site.occurrence.start;
    var sites := [site];
    assert sites[0] == site;
    assert SiteWrittenIn(linked, sites[0], libraries);
    forall i | 0 <= i < |code| && (i < at || at + 40 <= i)
      ensures linked[i] == code[i]
    {
      assert !SiteCovers(sites[0], i);
      assert !CoveredBySites(sites, i);
    }
    assert linked[..at] == code[..at];
    assert linked[at + 40..] == code[at + 40..];
  }

  /** The deployment's call: with a bytecode long enough to hold byte 1281, the descriptor
      library's lower-cased address lands on hex characters [2524, 2564) and nothing else
      changes. */
  lemma DeployDescriptorLink(bytecode: string, descriptor: string)
    requires |bytecode| >= 2564 && IsAddressText(descriptor)
    ensures var r := Link(bytecode, DescriptorReferences(), map["NFTDescriptor" := descriptor]);
      r.Ok? && |r.value| == |bytecode| &&
      r.value[..2524] == bytecode[..2524] && r.value[2564..] == bytecode[2564..] &&
      forall i :: 0 <= i < 40 ==> r.value[2524 + i] == ToLower(AddressDigits(descriptor)[i])
  {
    var refs := DescriptorReferences();
    var libraries := map["NFTDescriptor" := descriptor];
    var site := Site("NFTDescriptor", Occurrence(1261, 20));
    assert Sites(refs) == [site] by {
      assert OccurrenceSites(refs[0].libraries[0]) == [site];
      assert LibrarySites(refs[0].libraries) == [site] by {
        assert refs[0].libraries[..0] == [];
      }
      assert refs[..0] == [];
    }
    assert AllResolve(refs, libraries) by {
      assert ResolvesAll(refs[0].libraries, libraries);
    }
    assert WellFormedSites(|bytecode|, [site]);
    LinkSucceedsIff(bytecode, refs, libraries);
    LinkWritesEveryOccurrence(bytecode, refs, libraries);
    WritesSingleSite(bytecode, Link(bytecode, refs, libraries).value, site, libraries);
  }

  /** Without an address for `NFTDescriptor`, the deployment's call fails naming it. */
  lemma DeployDescriptorMissing(bytecode: string)
    ensures Link(bytecode, DescriptorReferences(), map[]) == Err(MissingLibrary("NFTDescriptor"))
  {
    var refs := DescriptorReferences();
    assert refs[..0] == [] && refs[0].libraries[..0] == [];
  }
}
