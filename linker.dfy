/** `linkLibraries` of scripts/deploy.js: splices deployed library addresses into a
    `0x`-prefixed hex bytecode string at the places a link-reference map names.

    A link-reference map is an object `file -> library name -> [{start, length}]`; here it
    is a sequence of file entries, each holding its library entries, both in the order
    `Object.keys` yields them. `start` and `length` count bytes of the decoded bytecode,
    so an occurrence covers the hex characters [2 + 2 * start, 2 + 2 * start + 2 * length).

    The specification is split in two: `FilePatches` resolves every library name to its
    normalised address (failing at the first one that cannot be resolved) and lists one
    `Patch` per occurrence, and `Apply` performs those patches one after the other.
    `LinkLibraries` is the source's nested loop, proved equal to `Link`. */
module Linker {
  import opened Results

  /** One `{start, length}` entry: a byte range of the decoded bytecode. */
  datatype Occurrence = Occurrence(start: nat, length: nat)

  /** The occurrences of one library in one file entry. */
  datatype LibraryReference = LibraryReference(name: string, occurrences: seq<Occurrence>)

  /** One file entry of a link-reference map. */
  datatype FileReference = FileReference(fileName: string, libraries: seq<LibraryReference>)

  type LinkReferences = seq<FileReference>

  /** The two ways linking throws. */
  datatype LinkError =
    | MissingLibrary(name: string)  // `Missing link library name ${name}`
    | InvalidAddress(name: string)  // `utils.getAddress` rejects the address supplied for `name` (its own error names the address)

  /** A splice of `hex` over the hex characters [at, at + width) of a bytecode string. */
  datatype Patch = Patch(at: nat, width: nat, hex: string)

  // ---------------------------------------------------------------------------
  // Addresses

  predicate IsHexDigit(c: char)
  {
    '0' <= c <= '9' || 'a' <= c <= 'f' || 'A' <= c <= 'F'
  }

  predicate IsLowerHexDigit(c: char)
  {
    '0' <= c <= '9' || 'a' <= c <= 'f'
  }

  /** `String.prototype.toLowerCase` on one ASCII character. */
  function ToLower(c: char): char
  {
    if 'A' <= c <= 'Z' then (c as int - 'A' as int + 'a' as int) as char else c
  }

  /** The digits of an address written with or without the `0x` prefix. */
  function AddressDigits(s: string): string
  {
    if |s| >= 2 && s[..2] == "0x" then s[2..] else s
  }

  /** The forms `utils.getAddress` accepts as hex: /^(0x)?[0-9a-fA-F]{40}$/. */
  predicate IsAddressText(s: string)
  {
    var digits := AddressDigits(s);
    |digits| == 40 && forall i :: 0 <= i < 40 ==> IsHexDigit(digits[i])
  }

  /** `utils.getAddress(s).toLowerCase().slice(2)`: the 40 digits of the address in lower case,
      or `None` when `getAddress` throws. */
  function NormaliseAddress(s: string): (r: Option<string>)
    ensures r.Some? <==> IsAddressText(s)
    ensures r.Some? ==> |r.value| == 40
    ensures r.Some? ==> forall i :: 0 <= i < 40 ==>
      IsLowerHexDigit(r.value[i]) && r.value[i] == ToLower(AddressDigits(s)[i])
  {
    if IsAddressText(s) then
      var digits := AddressDigits(s);
      Some(seq(40, i requires 0 <= i < 40 => ToLower(digits[i])))
    else None
  }

  /** The address linked in for `name`, or the error `linkLibraries` throws for it. */
  function Resolve(name: string, libraries: map<string, string>): (r: Result<string, LinkError>)
    ensures r.Ok? <==> name in libraries && IsAddressText(libraries[name])
    ensures r == Err(MissingLibrary(name)) <==> name !in libraries
    ensures r.Ok? ==> Some(r.value) == NormaliseAddress(libraries[name])
    ensures r.Err? ==> r.error.name == name
  {
    if name !in libraries then Err(MissingLibrary(name))
    else match NormaliseAddress(libraries[name])
      case None => Err(InvalidAddress(name))
      case Some(address) => Ok(address)
  }

  // ---------------------------------------------------------------------------
  // Splicing

  /** `s.slice(from, to)` for non-negative arguments: both ends are clamped to `|s|`,
      and an empty string results when `to` does not exceed `from`. */
  function Slice(s: string, from: nat, to: nat): (r: string)
    ensures from <= to <= |s| ==> r == s[from..to]
    ensures from <= |s| <= to ==> r == s[from..]
    ensures |s| <= from || to <= from ==> r == []
  {
    var a := if from < |s| then from else |s|;
    var b := if to < |s| then to else |s|;
    if a < b then s[a..b] else []
  }

  /** `code.slice(0, p.at).concat(p.hex).concat(code.slice(p.at + p.width, code.length))`. */
  function Splice(code: string, p: Patch): string
  {
    Slice(code, 0, p.at) + p.hex + Slice(code, p.at + p.width, |code|)
  }

  /** The patches performed one after the other, as the loop reassigns `bytecode`. */
  function Apply(code: string, ps: seq<Patch>): string
    decreases |ps|
  {
    if ps == [] then code else Splice(Apply(code, ps[..|ps| - 1]), ps[|ps| - 1])
  }

  /** `start2 = 2 + start * 2`, `length2 = length * 2`. */
  function OccurrencePatch(o: Occurrence, address: string): Patch
  {
    Patch(2 + 2 * o.start, 2 * o.length, address)
  }

  function OccurrencePatches(occurrences: seq<Occurrence>, address: string): seq<Patch>
  {
    seq(|occurrences|, k requires 0 <= k < |occurrences| => OccurrencePatch(occurrences[k], address))
  }

  // ---------------------------------------------------------------------------
  // Resolving the whole map

  /** The patches for the library entries of one file, or the first error among them. */
  function LibraryPatches(libs: seq<LibraryReference>, libraries: map<string, string>): Result<seq<Patch>, LinkError>
    decreases |libs|
  {
    if libs == [] then Ok([])
    else match LibraryPatches(libs[..|libs| - 1], libraries)
      case Err(e) => Err(e)
      case Ok(ps) =>
        var last := libs[|libs| - 1];
        match Resolve(last.name, libraries)
        case Err(e) => Err(e)
        case Ok(address) => Ok(ps + OccurrencePatches(last.occurrences, address))
  }

  /** The patches for every file entry, or the first error among them. */
  function FilePatches(refs: LinkReferences, libraries: map<string, string>): Result<seq<Patch>, LinkError>
    decreases |refs|
  {
    if refs == [] then Ok([])
    else match FilePatches(refs[..|refs| - 1], libraries)
      case Err(e) => Err(e)
      case Ok(ps) =>
        match LibraryPatches(refs[|refs| - 1].libraries, libraries)
        case Err(e) => Err(e)
        case Ok(qs) => Ok(ps + qs)
  }

  /** What `linkLibraries({bytecode, linkReferences}, libraries)` returns or throws. */
  function Link(bytecode: string, refs: LinkReferences, libraries: map<string, string>): Result<string, LinkError>
  {
    match FilePatches(refs, libraries)
    case Err(e) => Err(e)
    case Ok(ps) => Ok(Apply(bytecode, ps))
  }

  // ---------------------------------------------------------------------------
  // Unfolding lemmas the loop needs

  /** One more iteration of the innermost loop performs one more patch. */
  lemma ApplyStep(bytecode: string, ps: seq<Patch>, k: nat, code: string, start2: nat, length2: nat, address: string)
    requires k < |ps| && code == Apply(bytecode, ps[..k]) && ps[k] == Patch(start2, length2, address)
    ensures Slice(code, 0, start2) + address + Slice(code, start2 + length2, |code|) == Apply(bytecode, ps[..k + 1])
  {
    var prefix := ps[..k + 1];
    assert prefix[..|prefix| - 1] == ps[..k] && prefix[|prefix| - 1] == ps[k];
    assert Apply(bytecode, prefix) == Splice(code, ps[k]);
  }

  lemma LibraryPatchesSnoc(libs: seq<LibraryReference>, j: nat, libraries: map<string, string>,
                           ps: seq<Patch>, address: string)
    requires j < |libs| && LibraryPatches(libs[..j], libraries) == Ok(ps)
    requires Resolve(libs[j].name, libraries) == Ok(address)
    ensures LibraryPatches(libs[..j + 1], libraries) == Ok(ps + OccurrencePatches(libs[j].occurrences, address))
  {
    assert libs[..j + 1][..j] == libs[..j];
  }

  lemma FilePatchesSnoc(refs: LinkReferences, i: nat, libraries: map<string, string>, ps: seq<Patch>, qs: seq<Patch>)
    requires i < |refs| && FilePatches(refs[..i], libraries) == Ok(ps)
    requires LibraryPatches(refs[i].libraries, libraries) == Ok(qs)
    ensures FilePatches(refs[..i + 1], libraries) == Ok(ps + qs)
  {
    assert refs[..i + 1][..i] == refs[..i];
  }

  /** Performing ps and then qs is performing ps + qs. */
  lemma {:induction false} ApplyAppend(code: string, ps: seq<Patch>, qs: seq<Patch>)
    ensures Apply(code, ps + qs) == Apply(Apply(code, ps), qs)
    decreases |qs|
  {
    if qs == [] {
      assert ps + qs == ps;
    } else {
      var init := qs[..|qs| - 1];
      assert (ps + qs)[..|ps + qs| - 1] == ps + init;
      ApplyAppend(code, ps, init);
    }
  }

  /** An error in a prefix of the library entries is the error of all of them. */
  lemma {:induction false} LibraryPatchesPrefixErr(libs: seq<LibraryReference>, m: nat, libraries: map<string, string>)
    requires m <= |libs| && LibraryPatches(libs[..m], libraries).Err?
    ensures LibraryPatches(libs, libraries) == LibraryPatches(libs[..m], libraries)
    decreases |libs|
  {
    if m < |libs| {
      var init := libs[..|libs| - 1];
      assert init[..m] == libs[..m];
      LibraryPatchesPrefixErr(init, m, libraries);
    } else {
      assert libs[..m] == libs;
    }
  }

  /** An error in a prefix of the file entries is the error of all of them. */
  lemma {:induction false} FilePatchesPrefixErr(refs: LinkReferences, m: nat, libraries: map<string, string>)
    requires m <= |refs| && FilePatches(refs[..m], libraries).Err?
    ensures FilePatches(refs, libraries) == FilePatches(refs[..m], libraries)
    decreases |refs|
  {
    if m < |refs| {
      var init := refs[..|refs| - 1];
      assert init[..m] == refs[..m];
      FilePatchesPrefixErr(init, m, libraries);
    } else {
      assert refs[..m] == refs;
    }
  }

  // ---------------------------------------------------------------------------
  // The source's loop

  /** The innermost `forEach`: splice `address` over each occurrence in turn. */
  method SpliceOccurrences(bytecode: string, occurrences: seq<Occurrence>, address: string) returns (code: string)
    ensures code == Apply(bytecode, OccurrencePatches(occurrences, address))
  {
    ghost var ps := OccurrencePatches(occurrences, address);
    code := bytecode;
    var k := 0;
    while k < |occurrences|
      invariant k <= |occurrences|
      invariant code == Apply(bytecode, ps[..k])
    {
      var start2 := 2 + occurrences[k].start * 2;
      var length2 := occurrences[k].length * 2;
      ApplyStep(bytecode, ps, k, code, start2, length2, address);
      code := Slice(code, 0, start2) + address + Slice(code, start2 + length2, |code|);
      k := k + 1;
    }
    assert ps[..k] == ps;
  }

  /** The middle `forEach`: check, normalise and splice in each library of one file entry. */
  method LinkFile(code: string, libs: seq<LibraryReference>, libraries: map<string, string>)
    returns (r: Result<string, LinkError>)
    ensures LibraryPatches(libs, libraries).Err? ==> r == Err(LibraryPatches(libs, libraries).error)
    ensures LibraryPatches(libs, libraries).Ok? ==> r == Ok(Apply(code, LibraryPatches(libs, libraries).value))
  {
    var linked := code;
    ghost var applied: seq<Patch> := [];
    var j := 0;
    while j < |libs|
      invariant j <= |libs|
      invariant LibraryPatches(libs[..j], libraries) == Ok(applied)
      invariant linked == Apply(code, applied)
    {
      var library := libs[j];
      if library.name !in libraries {
        LibraryStopsAt(libs, j, libraries);
        return Err(MissingLibrary(library.name));
      }
      var normalised := NormaliseAddress(libraries[library.name]);
      if normalised.None? {
        LibraryStopsAt(libs, j, libraries);
        return Err(InvalidAddress(library.name));
      }
      var address := normalised.value;
      linked := SpliceOccurrences(linked, library.occurrences, address);
      ApplyAppend(code, applied, OccurrencePatches(library.occurrences, address));
      LibraryPatchesSnoc(libs, j, libraries, applied, address);
      applied := applied + OccurrencePatches(library.occurrences, address);
      j := j + 1;
    }
    assert libs[..j] == libs;
    r := Ok(linked);
  }

  /** `linkLibraries`: for each file entry, for each library name in it, check that an
      address was supplied, normalise it, and splice it over every occurrence. */
  method LinkLibraries(bytecode: string, linkReferences: LinkReferences, libraries: map<string, string>)
    returns (r: Result<string, LinkError>)
    ensures r == Link(bytecode, linkReferences, libraries)
  {
    var code := bytecode;
    ghost var applied: seq<Patch> := [];
    var i := 0;
    while i < |linkReferences|
      invariant i <= |linkReferences|
      invariant FilePatches(linkReferences[..i], libraries) == Ok(applied)
      invariant code == Apply(bytecode, applied)
    {
      var linked := LinkFile(code, linkReferences[i].libraries, libraries);
      if linked.Err? {
        FileStopsAt(linkReferences, i, libraries);
        return Err(linked.error);
      }
      ghost var fileDone := LibraryPatches(linkReferences[i].libraries, libraries).value;
      ApplyAppend(bytecode, applied, fileDone);
      FilePatchesSnoc(linkReferences, i, libraries, applied, fileDone);
      code := linked.value;
      applied := applied + fileDone;
      i := i + 1;
    }
    assert linkReferences[..i] == linkReferences;
    r := Ok(code);
  }

  /** When library entry j is the first of a file's entries that cannot be resolved,
      the file's entries as a whole fail with its error. */
  lemma LibraryStopsAt(libs: seq<LibraryReference>, j: nat, libraries: map<string, string>)
    requires j < |libs| && LibraryPatches(libs[..j], libraries).Ok?
    requires Resolve(libs[j].name, libraries).Err?
    ensures LibraryPatches(libs, libraries) == Err(Resolve(libs[j].name, libraries).error)
  {
    assert LibraryPatches(libs[..j + 1], libraries) == Err(Resolve(libs[j].name, libraries).error) by {
      assert libs[..j + 1][..j] == libs[..j];
    }
    LibraryPatchesPrefixErr(libs, j + 1, libraries);
  }

  /** When file entry i is the first whose library entries fail, the whole map fails with their error. */
  lemma FileStopsAt(refs: LinkReferences, i: nat, libraries: map<string, string>)
    requires i < |refs| && FilePatches(refs[..i], libraries).Ok?
    requires LibraryPatches(refs[i].libraries, libraries).Err?
    ensures FilePatches(refs, libraries) == Err(LibraryPatches(refs[i].libraries, libraries).error)
  {
    var init := refs[..i + 1];
    assert init[..|init| - 1] == refs[..i] && init[|init| - 1] == refs[i];
    FilePatchesPrefixErr(refs, i + 1, libraries);
  }
}
