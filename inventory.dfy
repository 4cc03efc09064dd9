/**
 * The `/api/apks` handler of server.js: list the package directory, keep the
 * `.apk` files, and derive one record per file; or report a single error.
 */
module Inventory {
  import opened Wrappers
  import opened Seqs
  import opened Strings

  const ApkSuffix: string := ".apk"
  /** URL prefix of the static mount that serves the package directory. */
  const DownloadPrefix: string := "/apks/"
  /** Bytes per megabyte in the size label (1024 * 1024). */
  const MiB: nat := 1048576
  /** The `error` field of every failure response. */
  const ListingError: string := "Erro ao listar APKs"

  /** What `fs.statSync` gives for one directory entry: its byte size, or the message it throws. */
  datatype Stat = Size(bytes: nat) | StatFailure(message: string)

  /** One name of the directory listing, with what a stat of it would give. */
  datatype Listed = Listed(name: string, stat: Stat)

  /** One record of the inventory response. */
  datatype Entry = Entry(id: nat, name: string, filename: string, size: string, downloadUrl: string)

  /** The body and status of an inventory response. */
  datatype Response =
    | Listing(entries: seq<Entry>)                 // status 200, a JSON array
    | ServerError(error: string, details: string)  // status 500, `{error, details}`
  {
    function Status(): nat {
      if Listing? then 200 else 500
    }
  }

  /** `file.endsWith('.apk')`. */
  predicate IsApk(f: Listed): (b: bool)
    ensures b <==> |f.name| >= |ApkSuffix| && OccursAt(ApkSuffix, f.name, |f.name| - |ApkSuffix|)
    ensures b ==> IndexOf(f.name, ApkSuffix).Some?
  {
    IsSuffix(ApkSuffix, f.name)
  }

  /** `files.filter(file => file.endsWith('.apk'))`. */
  function ApkFiles(listing: seq<Listed>): (r: seq<Listed>)
    ensures forall i :: 0 <= i < |r| ==> IsApk(r[i]) && r[i] in listing
    ensures forall i :: 0 <= i < |listing| && IsApk(listing[i]) ==> listing[i] in r
    ensures IsSubsequence(r, listing)
  {
    FilterIsSubsequence(listing, IsApk);
    Filter(listing, IsApk)
  }

  predicate IsSeparator(c: char) {
    c == '_' || c == '-'
  }

  /** `.replace(/[_-]/g, ' ')`: every underscore and hyphen becomes a space. */
  function SeparatorsToSpaces(s: string): (r: string)
    ensures |r| == |s|
    ensures forall i :: 0 <= i < |s| ==> r[i] == (if IsSeparator(s[i]) then ' ' else s[i])
  {
    seq(|s|, i requires 0 <= i < |s| => if IsSeparator(s[i]) then ' ' else s[i])
  }

  /**
   * The display name: first `.apk` removed, then separators turned into spaces. It
   * is four characters shorter than the name when the name contains `.apk`, and it
   * holds no `_` or `-`.
   */
  function DisplayName(file: string): (r: string)
    ensures |r| == |file| - (if IndexOf(file, ApkSuffix).Some? then |ApkSuffix| else 0)
    ensures forall k :: 0 <= k < |r| ==> !IsSeparator(r[k])
  {
    SeparatorsToSpaces(RemoveFirst(file, ApkSuffix))
  }

  /**
   * `(bytes / (1024 * 1024)).toFixed(2)` in hundredths. Dividing by a power of two
   * is exact in binary64, and toFixed picks the nearest hundredth, the larger one
   * on a tie; so the result is the hundredth nearest to bytes / MiB, ties upward.
   */
  function SizeHundredths(bytes: nat): (h: nat)
    ensures h * MiB <= bytes * 100 + MiB / 2 < (h + 1) * MiB
  {
    (bytes * 100 + MiB / 2) / MiB
  }

  /** A number of hundredths with exactly two fraction digits, as toFixed(2) prints it. */
  function Fixed2(h: nat): (r: string)
    ensures |r| >= 4 && r[|r| - 3] == '.' && AllDigits(r[|r| - 2..])
    ensures AllDigits(r[..|r| - 3])
  {
    NatToString(h / 100) + "." + [DigitChar(h % 100 / 10), DigitChar(h % 10)]
  }

  /** The `size` field: `${sizeInMB} MB`. */
  function SizeLabel(bytes: nat): (r: string)
    ensures |r| >= 7 && IsSuffix(" MB", r) && r[|r| - 6] == '.'
  {
    Fixed2(SizeHundredths(bytes)) + " MB"
  }

  /** The record for the file at 0-based position `index` of the `.apk` list. */
  function MakeEntry(index: nat, file: string, bytes: nat): (e: Entry)
    ensures e.id == index + 1 && e.filename == file
    ensures e.downloadUrl == DownloadPrefix + e.filename
    ensures e.name == DisplayName(e.filename) && e.size == SizeLabel(bytes)
  {
    Entry(index + 1, DisplayName(file), file, SizeLabel(bytes), DownloadPrefix + file)
  }

  /** Every file in `apks` could be stat-ed. */
  predicate AllSized(apks: seq<Listed>) {
    forall i :: 0 <= i < |apks| ==> apks[i].stat.Size?
  }

  /** `m` is the message of the first file in `apks` whose stat fails. */
  ghost predicate FirstFailure(apks: seq<Listed>, m: string) {
    exists i :: 0 <= i < |apks| && apks[i].stat == StatFailure(m) &&
      forall j :: 0 <= j < i ==> apks[j].stat.Size?
  }

  /**
   * `apkFiles.map((file, index) => ...)` applied to `apks`, whose first element sits at
   * position `base`: a statSync that throws aborts the whole map.
   */
  function Derive(apks: seq<Listed>, base: nat): (r: Result<seq<Entry>, string>)
    ensures r.Ok? <==> AllSized(apks)
    ensures r.Ok? ==> (
      && |r.value| == |apks|
      && forall i :: 0 <= i < |apks| ==>
           r.value[i] == MakeEntry(base + i, apks[i].name, apks[i].stat.bytes))
    ensures r.Err? ==> FirstFailure(apks, r.error)
    decreases |apks|
  {
    if apks == [] then Ok([])
    else match apks[0].stat
      case StatFailure(m) => Err(m)
      case Size(b) =>
        match Derive(apks[1..], base + 1)
        case Err(m) => Err(m)
        case Ok(rest) => Ok([MakeEntry(base, apks[0].name, b)] + rest)
  }

  /**
   * The scan of an existing directory whose listing is `listing`: one record per
   * `.apk` name in listing order, numbered from 1, or the first stat failure.
   */
  function Scan(listing: seq<Listed>): (r: Result<seq<Entry>, string>)
    ensures r.Ok? <==> forall i :: 0 <= i < |listing| && IsApk(listing[i]) ==> listing[i].stat.Size?
    ensures r.Ok? ==> var apks := ApkFiles(listing);
      |r.value| == |apks| &&
      forall i :: 0 <= i < |apks| ==>
        && r.value[i].id == i + 1
        && r.value[i].filename == apks[i].name
        && r.value[i].downloadUrl == DownloadPrefix + r.value[i].filename
        && r.value[i].name == DisplayName(r.value[i].filename)
        && r.value[i].size == SizeLabel(apks[i].stat.bytes)
    ensures r.Err? ==> FirstFailure(ApkFiles(listing), r.error)
  {
    var apks := ApkFiles(listing);
    var r := Derive(apks, 0);
    assert r.Ok? <== (forall i :: 0 <= i < |listing| && IsApk(listing[i]) ==> listing[i].stat.Size?) by {
      if forall i :: 0 <= i < |listing| && IsApk(listing[i]) ==> listing[i].stat.Size? {
        forall k | 0 <= k < |apks| ensures apks[k].stat.Size? {
          var i :| 0 <= i < |listing| && listing[i] == apks[k];
        }
      }
    }
    r
  }

  /**
   * The response of the handler: `dirExists` is what `existsSync` reports,
   * `mkdirFailure` what `mkdirSync` throws, `readFailure` what `readdirSync` throws.
   */
  function InventoryResponse(dirExists: bool, mkdirFailure: Option<string>,
                             readFailure: Option<string>, listing: seq<Listed>): (r: Response)
    ensures !dirExists ==> r == (if mkdirFailure.None? then Listing([]) else ServerError(ListingError, mkdirFailure.value))
    ensures dirExists && readFailure.Some? ==> r == ServerError(ListingError, readFailure.value)
    ensures r.Listing? <==>
      (!dirExists && mkdirFailure.None?) ||
      (dirExists && readFailure.None? && forall i :: 0 <= i < |listing| && IsApk(listing[i]) ==> listing[i].stat.Size?)
    ensures r.ServerError? ==> r.error == ListingError
    ensures dirExists && r.Listing? ==> |r.entries| == |ApkFiles(listing)|
    ensures dirExists && readFailure.None? && Scan(listing).Ok? ==> r == Listing(Scan(listing).value)
    ensures dirExists && readFailure.None? && Scan(listing).Err? ==> r == ServerError(ListingError, Scan(listing).error)
  {
    if !dirExists then
      match mkdirFailure
      case Some(m) => ServerError(ListingError, m)
      case None => Listing([])
    else if readFailure.Some? then
      ServerError(ListingError, readFailure.value)
    else
      match Scan(listing)
      case Ok(es) => Listing(es)
      case Err(m) => ServerError(ListingError, m)
  }

  /**
   * The package directory as the handler sees it. `dirExists` is what `existsSync`
   * reports and the only thing the handler changes; the other fields stand for what
   * the file system would answer: the listing with each name's stat, and what
   * `readdirSync` and `mkdirSync` would throw, if anything.
   */
  class PackageDir {
    var dirExists: bool
    var listing: seq<Listed>
    var readFailure: Option<string>
    var mkdirFailure: Option<string>

    /** A directory that does not exist has nothing in it. */
    ghost predicate Valid()
      reads this
    {
      !dirExists ==> listing == []
    }

    constructor (dirExists: bool, listing: seq<Listed>, readFailure: Option<string>, mkdirFailure: Option<string>)
      requires !dirExists ==> listing == []
      ensures Valid()
      ensures this.dirExists == dirExists && this.listing == listing
      ensures this.readFailure == readFailure && this.mkdirFailure == mkdirFailure
    {
      this.dirExists := dirExists;
      this.listing := listing;
      this.readFailure := readFailure;
      this.mkdirFailure := mkdirFailure;
    }

    /**
     * `GET /api/apks`: a missing directory is created (recursively) and answered
     * with `[]` without being listed; otherwise the directory is listed and scanned.
     * Whatever throws inside the `try` becomes one 500 response.
     */
    method HandleInventory() returns (resp: Response)
      requires Valid()
      modifies this`dirExists
      ensures Valid()
      ensures resp == InventoryResponse(old(dirExists), mkdirFailure, readFailure, listing)
      ensures dirExists == (old(dirExists) || mkdirFailure.None?)
    {
      if !dirExists {
        if mkdirFailure.Some? {
          resp := ServerError(ListingError, mkdirFailure.value);
          return;
        }
        dirExists := true;
        resp := Listing([]);
        return;
      }
      if readFailure.Some? {
        resp := ServerError(ListingError, readFailure.value);
        return;
      }
      var files := listing;
      match Scan(files)
      case Ok(apps) =>
        resp := Listing(apps);
      case Err(m) =>
        resp := ServerError(ListingError, m);
    }
  }

  /**
   * The lifecycle of the directory: the first request on a missing directory creates
   * it, and a later request, with nothing placed in it meanwhile, lists it as empty.
   */
  method FirstRequestsOnMissingDirectory(readFailure: Option<string>)
    returns (first: Response, second: Response)
    ensures first == Listing([]) && first.Status() == 200
    ensures readFailure.None? ==> second == Listing([])
    ensures readFailure.Some? ==> second == ServerError(ListingError, readFailure.value)
  {
    var dir := new PackageDir(false, [], readFailure, None);
    first := dir.HandleInventory();
    assert dir.dirExists;
    second := dir.HandleInventory();
  }

  // ---------------------------------------------------------------------------
  // Properties of the derived fields

  /**
   * The display name of an `.apk` file: the first `.apk` is cut out, the result is
   * four characters shorter than the file name and holds no `_` or `-`.
   */
  lemma DisplayNameOfApk(file: string)
    requires IsSuffix(ApkSuffix, file)
    ensures IndexOf(file, ApkSuffix).Some?
    ensures var i := IndexOf(file, ApkSuffix).value;
      DisplayName(file) == SeparatorsToSpaces(file[..i] + file[i + 4..])
    ensures |DisplayName(file)| == |file| - 4
    ensures forall k :: 0 <= k < |DisplayName(file)| ==> !IsSeparator(DisplayName(file)[k])
  {
    assert OccursAt(ApkSuffix, file, |file| - 4);
  }

  /** When `.apk` occurs only as the suffix, the display name is built from the rest of the name. */
  lemma DisplayNameOfPlainApk(file: string)
    requires IsSuffix(ApkSuffix, file)
    requires forall j :: 0 <= j < |file| - 4 ==> !OccursAt(ApkSuffix, file, j)
    ensures DisplayName(file) == SeparatorsToSpaces(file[..|file| - 4])
  {
    DisplayNameOfApk(file);
    var i := IndexOf(file, ApkSuffix).value;
    assert i == |file| - 4;
    assert file[..i] + file[i + 4..] == file[..|file| - 4];
  }

  /** `My_App-2.apk` is listed as `My App 2`. */
  lemma DisplayNameExample()
    ensures DisplayName("My_App-2.apk") == "My App 2"
  {
    calc {
      DisplayName("My_App-2.apk");
    == { var file := "My_App-2.apk";
         assert file[..8] == "My_App-2" && file[12..] == [];
         assert file[8..12] == ApkSuffix by { assert file[8] == '.' && file[9] == 'a' && file[10] == 'p' && file[11] == 'k'; }
         IndexOfAt(file, ApkSuffix, 8); }
      SeparatorsToSpaces("My_App-2");
    == { var r := SeparatorsToSpaces("My_App-2");
         assert r[0] == 'M' && r[1] == 'y' && r[2] == ' ' && r[3] == 'A';
         assert r[4] == 'p' && r[5] == 'p' && r[6] == ' ' && r[7] == '2'; }
      "My App 2";
    }
  }

  /** Only the first `.apk` is removed: `My.apk-v2.apk` is listed as `My v2.apk`. */
  lemma DisplayNameRemovesFirstOccurrence()
    ensures DisplayName("My.apk-v2.apk") == "My v2.apk"
  {
    calc {
      DisplayName("My.apk-v2.apk");
    == { var file := "My.apk-v2.apk";
         assert file[..2] == "My";
         assert file[2..6] == ApkSuffix by { assert file[2] == '.' && file[3] == 'a' && file[4] == 'p' && file[5] == 'k'; }
         assert file[6..] == "-v2.apk";
         IndexOfAt(file, ApkSuffix, 2); }
      SeparatorsToSpaces("My-v2.apk");
    == { var r := SeparatorsToSpaces("My-v2.apk");
         assert r[0] == 'M' && r[1] == 'y' && r[2] == ' ' && r[3] == 'v' && r[4] == '2';
         assert r[5] == '.' && r[6] == 'a' && r[7] == 'p' && r[8] == 'k'; }
      "My v2.apk";
    }
  }

  /** A file of exactly `k` megabytes is `100 * k` hundredths of a megabyte. */
  lemma WholeMegabytesHundredths(k: nat)
    ensures SizeHundredths(k * MiB) == 100 * k
  {
    var h := SizeHundredths(k * MiB);
    // The rounding bounds at k * MiB bytes, with the constant factor regrouped,
    // pin the hundredths down to 100 * k.
    assert k * MiB * 100 == (100 * k) * MiB;
    assert h * MiB <= (100 * k) * MiB + MiB / 2 < (h + 1) * MiB;
  }

  /** A whole number of units is printed with two zero decimals. */
  lemma Fixed2Whole(k: nat)
    ensures Fixed2(100 * k) == NatToString(k) + ".00"
  {
    var h, z := 100 * k, DigitChar(0);
    assert z == '0';
    assert h / 100 == k && h % 100 / 10 == 0 && h % 10 == 0;
    assert "." + [z, z] == ".00";
  }

  /** A file of exactly `k` megabytes is labelled `k.00 MB`. */
  lemma SizeLabelWholeMegabytes(k: nat)
    ensures SizeLabel(k * MiB) == NatToString(k) + ".00 MB"
  {
    WholeMegabytesHundredths(k);
    Fixed2Whole(k);
    UnitAfterZeros(NatToString(k));
  }

  /** Appending the unit after the two zero decimals, for any integer part. */
  lemma UnitAfterZeros(w: string)
    ensures w + ".00" + " MB" == w + ".00 MB"
  {
  }

  /** The label of a size below 10 MB, assembled from its three digits. */
  lemma SingleDigitLabel(bytes: nat, w: nat, d1: nat, d2: nat)
    requires w < 10 && d1 < 10 && d2 < 10
    requires SizeHundredths(bytes) == w * 100 + d1 * 10 + d2
    ensures SizeLabel(bytes) == [DigitChar(w), '.', DigitChar(d1), DigitChar(d2), ' ', 'M', 'B']
  {
    var h := SizeHundredths(bytes);
    assert h / 100 == w && h % 100 / 10 == d1 && h % 10 == d2;
    assert NatToString(w) == [DigitChar(w)];
    assert Fixed2(h) == [DigitChar(w)] + "." + [DigitChar(d1), DigitChar(d2)];
  }

  /** The sizes of the examples: 1 MiB, 2.5 MiB, 3 MiB and 512000 bytes. */
  lemma SizeLabelExamples()
    ensures SizeLabel(1048576) == "1.00 MB"
    ensures SizeLabel(2621440) == "2.50 MB"
    ensures SizeLabel(3145728) == "3.00 MB"
    ensures SizeLabel(512000) == "0.49 MB"
  {
    SingleDigitLabel(1048576, 1, 0, 0);
    SingleDigitLabel(2621440, 2, 5, 0);
    SingleDigitLabel(3145728, 3, 0, 0);
    SingleDigitLabel(512000, 0, 4, 9);
  }

  /**
   * Every size label is digits, a point, exactly two digits and ` MB`, and reading
   * the digits back gives the rounded number of hundredths.
   */
  lemma SizeLabelReadsBack(bytes: nat)
    ensures var r := SizeLabel(bytes);
      && |r| >= 7
      && IsSuffix(" MB", r)
      && r[|r| - 6] == '.'
      && AllDigits(r[..|r| - 6]) && AllDigits(r[|r| - 5..|r| - 3])
      && DigitsValue(r[..|r| - 6]) * 100 + DigitsValue(r[|r| - 5..|r| - 3]) == SizeHundredths(bytes)
  {
    var h := SizeHundredths(bytes);
    var whole := NatToString(h / 100);
    var frac := [DigitChar(h % 100 / 10), DigitChar(h % 10)];
    var r := SizeLabel(bytes);
    assert r == whole + "." + frac + " MB";
    assert r[..|r| - 6] == whole;
    assert r[|r| - 5..|r| - 3] == frac;
    NatToStringRoundTrip(h / 100);
    assert frac[..1] == [DigitChar(h % 100 / 10)] && frac[..1][..0] == [];
    assert DigitsValue(frac[..1]) == h % 100 / 10;
    assert DigitsValue(frac) == (h % 100 / 10) * 10 + h % 10;
  }

  // ---------------------------------------------------------------------------
  // Properties of the scan

  /** A name that does not end in `.apk` is never stat-ed: it cannot change the scan. */
  lemma ScanIgnoresOtherNames(before: seq<Listed>, other: Listed, after: seq<Listed>)
    requires !IsApk(other)
    ensures Scan(before + [other] + after) == Scan(before + after)
  {
    FilterSkip(before, other, after, IsApk);
  }

  function Names(listing: seq<Listed>): (r: seq<string>)
    ensures |r| == |listing| && forall i :: 0 <= i < |listing| ==> r[i] == listing[i].name
  {
    seq(|listing|, i requires 0 <= i < |listing| => listing[i].name)
  }

  function Filenames(es: seq<Entry>): (r: seq<string>)
    ensures |r| == |es| && forall i :: 0 <= i < |es| ==> r[i] == es[i].filename
  {
    seq(|es|, i requires 0 <= i < |es| => es[i].filename)
  }

  /** Mapping names over a subsequence gives a subsequence of the names. */
  lemma {:induction false} NamesOfSubsequence(a: seq<Listed>, b: seq<Listed>)
    requires IsSubsequence(a, b)
    ensures IsSubsequence(Names(a), Names(b))
    decreases |b|
  {
    if a != [] {
      assert Names(a)[1..] == Names(a[1..]) && Names(b)[1..] == Names(b[1..]);
      if a[0] == b[0] && IsSubsequence(a[1..], b[1..]) {
        NamesOfSubsequence(a[1..], b[1..]);
      } else {
        NamesOfSubsequence(a, b[1..]);
      }
    }
  }

  /**
   * The file names of a successful scan are exactly the `.apk` names of the listing,
   * in listing order: a subsequence of the listing's names.
   */
  lemma ScanInListingOrder(listing: seq<Listed>)
    requires forall i :: 0 <= i < |listing| && IsApk(listing[i]) ==> listing[i].stat.Size?
    ensures Filenames(Scan(listing).value) == Names(ApkFiles(listing))
    ensures IsSubsequence(Filenames(Scan(listing).value), Names(listing))
    ensures forall i :: 0 <= i < |Scan(listing).value| ==> IsSuffix(ApkSuffix, Scan(listing).value[i].filename)
  {
    var es := Scan(listing).value;
    var apks := ApkFiles(listing);
    assert Filenames(es) == Names(apks);
    FilterIsSubsequence(listing, IsApk);
    NamesOfSubsequence(apks, listing);
  }

  /**
   * Names in a directory are unique, so a `.apk` file that is in the listing gives
   * exactly one record of a successful scan: one record has its name, and no two
   * records share a file name.
   */
  lemma ScanListsFileOnce(listing: seq<Listed>, k: nat)
    requires DistinctBy(listing, (f: Listed) => f.name)
    requires k < |listing| && IsApk(listing[k])
    requires forall i :: 0 <= i < |listing| && IsApk(listing[i]) ==> listing[i].stat.Size?
    ensures var es := Scan(listing).value;
      exists i :: 0 <= i < |es| && es[i].filename == listing[k].name
    ensures var es := Scan(listing).value;
      forall i, j :: 0 <= i < j < |es| ==> es[i].filename != es[j].filename
  {
    var es := Scan(listing).value;
    var apks := ApkFiles(listing);
    FilterKeepsDistinct(listing, IsApk, (f: Listed) => f.name);
    assert listing[k] in apks;
    var i :| 0 <= i < |apks| && apks[i] == listing[k];
    assert es[i].filename == listing[k].name;
    forall i, j | 0 <= i < j < |es| ensures es[i].filename != es[j].filename {
      assert es[i].filename == apks[i].name && es[j].filename == apks[j].name;
    }
  }
}
