/** The geolocation resolver: the start-up search for a country dataset and
    the fallback chain that turns an IP string into a two-letter code. */
module GeoIp {
  import opened Wrappers
  import Text
  import IPv4

  /** What one dataset query reports for an address: a country record whose
      code may be empty (an absent `iso_code` is folded into ""), the
      address-not-found error, or any other lookup error. */
  datatype Lookup = Found(isoCode: string) | NotFound | LookupError

  /** A loaded, read-only dataset, keyed by the address text it is queried with. */
  datatype Reader = Reader(records: map<string, Lookup>)

  /** `reader.country(ip)`: a record or error the dataset holds for this very
      text, and not-found for text it does not hold. */
  function Country(reader: Reader, ip: string): (r: Lookup)
  {
    if ip in reader.records then reader.records[ip] else NotFound
  }

  /** The code every unresolved request falls back to. */
  const Fallback := "GB"

  // ---------------------------------------------------------------------
  // Start-up loading

  /** The part of the filesystem the loader observes: which candidate paths
      exist, and which of them hold a dataset that opens without error. */
  datatype Disk = Disk(present: set<string>, databases: map<string, Reader>)

  /** The candidate locations, in the order they are tried. */
  const DatasetPaths: seq<string> := [
    "C:\\ProgramData\\MaxMind\\GeoIPUpdate\\GeoIP\\GeoLite2-Country.mmdb",
    "GeoLite2-Country.mmdb",
    "/usr/share/GeoIP/GeoLite2-Country.mmdb"
  ]

  /** With none of the standard locations holding a dataset that loads, no
      reader is found and every address resolves to the fallback. */
  lemma NoDatasetMeansFallback(disk: Disk, ip: string)
    requires forall j :: 0 <= j < |DatasetPaths| ==> !Loads(disk, DatasetPaths[j])
    ensures FirstLoadable(DatasetPaths, disk).None?
    ensures GetCountryFromIp(None, ip) == Fallback
  {
  }

  /** When the first standard location holds a loadable dataset, it is the
      one used, whatever the other locations hold. */
  lemma FirstStandardPathWins(disk: Disk)
    requires Loads(disk, DatasetPaths[0])
    ensures FirstLoadable(DatasetPaths, disk) == Some(0)
  {
  }

  /** Opening the dataset at `path`: the reader, or None when opening raises. */
  function Open(disk: Disk, path: string): (r: Option<Reader>)
  {
    if path in disk.databases then Some(disk.databases[path]) else None
  }

  /** A candidate that both exists and loads. */
  predicate Loads(disk: Disk, path: string)
  {
    path in disk.present && path in disk.databases
  }

  /** Reference definition of the search: the position of the first candidate
      that exists and loads, if there is one. */
  function FirstLoadable(paths: seq<string>, disk: Disk): (r: Option<nat>)
    ensures r.None? <==> forall j :: 0 <= j < |paths| ==> !Loads(disk, paths[j])
    ensures r.Some? ==> r.value < |paths| && Loads(disk, paths[r.value])
    ensures r.Some? ==> forall j :: 0 <= j < r.value ==> !Loads(disk, paths[j])
  {
    if |paths| == 0 then None
    else if Loads(disk, paths[0]) then Some(0)
    else
      match FirstLoadable(paths[1..], disk)
      case None => None
      case Some(k) => Some(k + 1)
  }

  /** The start-up loop: try each candidate in order, skip the ones that do
      not exist, skip (after logging) the ones that fail to open, and stop at
      the first that opens. */
  method LoadReader(paths: seq<string>, disk: Disk) returns (reader: Option<Reader>)
    ensures reader.None? <==> FirstLoadable(paths, disk).None?
    ensures reader.Some? ==> reader.value == disk.databases[paths[FirstLoadable(paths, disk).value]]
  {
    reader := None;
    var i := 0;
    while i < |paths|
      invariant 0 <= i <= |paths|
      invariant reader.None?
      invariant forall j :: 0 <= j < i ==> !Loads(disk, paths[j])
    {
      if paths[i] in disk.present {
        var attempt := Open(disk, paths[i]);
        if attempt.Some? {
          reader := attempt;
          break;
        }
      }
      i := i + 1;
    }
  }

  /** Once a candidate loads, the candidates after it are never consulted. */
  lemma {:induction false} LaterCandidatesNotTried(paths: seq<string>, rest: seq<string>, disk: Disk)
    requires FirstLoadable(paths, disk).Some?
    ensures FirstLoadable(paths + rest, disk) == FirstLoadable(paths, disk)
  {
    var i := FirstLoadable(paths, disk).value;
    var both := paths + rest;
    assert both[i] == paths[i];
    assert forall j :: 0 <= j < i ==> both[j] == paths[j];
  }

  /** A candidate that is missing, or exists but fails to open, is skipped:
      the search goes on with the next one. */
  lemma SkipsUnloadable(path: string, rest: seq<string>, disk: Disk)
    requires !Loads(disk, path)
    ensures FirstLoadable([path] + rest, disk).None? <==> FirstLoadable(rest, disk).None?
    ensures FirstLoadable(rest, disk).Some? ==>
      FirstLoadable([path] + rest, disk) == Some(FirstLoadable(rest, disk).value + 1)
  {
    var paths := [path] + rest;
    assert paths[0] == path && paths[1..] == rest;
    assert !Loads(disk, paths[0]);
  }

  // ---------------------------------------------------------------------
  // Resolution

  /** `get_country_from_ip`: parse, then the private/loopback guard, then the
      reader check, then the lookup, then the empty-code check; every exit
      except a found non-empty code is the fallback. The result is always the
      fallback or a code the dataset reports for this very text. */
  function GetCountryFromIp(reader: Option<Reader>, ip: string): (code: string)
    ensures code == Fallback || (reader.Some? && Country(reader.value, ip) == Found(code))
    ensures code != Fallback ==> IPv4.Parse(ip).Some? && !IPv4.IsLocal(IPv4.Parse(ip).value)
  {
    match IPv4.Parse(ip)
    case None => Fallback
    case Some(address) =>
      if IPv4.IsLocal(address) then Fallback
      else if reader.None? then Fallback
      else
        match Country(reader.value, ip)
        case Found(isoCode) => if isoCode != "" then isoCode else Fallback
        case NotFound => Fallback
        case LookupError => Fallback
  }

  /** Text that is not an address resolves to the fallback. */
  lemma UnparseableIsFallback(reader: Option<Reader>, ip: string)
    requires IPv4.Parse(ip).None?
    ensures GetCountryFromIp(reader, ip) == Fallback
  {
  }

  /** The malformed inputs of the resolver's tests resolve to "GB", whatever
      dataset is loaded. */
  lemma MalformedInputsAreGB(reader: Option<Reader>)
    ensures GetCountryFromIp(reader, "") == "GB"
    ensures GetCountryFromIp(reader, "not_an_ip") == "GB"
    ensures GetCountryFromIp(reader, "999.999.999.999") == "GB"
  {
    IPv4.MalformedExamples();
    IPv4.OutOfRangeExample();
  }

  /** A private or loopback address resolves to the fallback before the
      dataset is consulted: the answer is the same whatever reader is loaded.
      An address is written as its dotted-quad text, which is the only text
      that parses to it (`IPv4.ParseIffFormat`). */
  lemma LocalIsFallbackWithoutLookup(r1: Option<Reader>, r2: Option<Reader>, x: IPv4.Address)
    requires IPv4.IsLocal(x)
    ensures GetCountryFromIp(r1, IPv4.Format(x)) == Fallback
    ensures GetCountryFromIp(r1, IPv4.Format(x)) == GetCountryFromIp(r2, IPv4.Format(x))
  {
    IPv4.ParseFormat(x);
  }

  /** The private and loopback inputs of the resolver's tests resolve to "GB". */
  lemma LocalInputsAreGB(reader: Option<Reader>)
    ensures GetCountryFromIp(reader, "127.0.0.1") == "GB"
    ensures GetCountryFromIp(reader, "192.168.0.10") == "GB"
    ensures GetCountryFromIp(reader, "10.0.0.1") == "GB"
  {
    IPv4.LoopbackTextParses();
    IPv4.HomeTextParses();
    IPv4.CorporateTextParses();
    IPv4.CommonBlocksAreLocal(IPv4.Address(127, 0, 0, 1));
    IPv4.CommonBlocksAreLocal(IPv4.Address(192, 168, 0, 10));
    IPv4.CommonBlocksAreLocal(IPv4.Address(10, 0, 0, 1));
  }

  /** With no dataset loaded, every input resolves to the fallback. */
  lemma NoReaderIsFallback(ip: string)
    ensures GetCountryFromIp(None, ip) == Fallback
  {
  }

  /** A lookup miss or any lookup error resolves to the fallback. */
  lemma LookupFailureIsFallback(reader: Reader, ip: string)
    requires Country(reader, ip) == NotFound || Country(reader, ip) == LookupError
    ensures GetCountryFromIp(Some(reader), ip) == Fallback
  {
  }

  /** A record with an empty (or absent) code resolves to the fallback. */
  lemma EmptyCodeIsFallback(reader: Reader, ip: string)
    requires Country(reader, ip) == Found("")
    ensures GetCountryFromIp(Some(reader), ip) == Fallback
  {
  }

  /** A public address with a non-empty recorded code resolves to exactly that code. */
  lemma FoundCodeReturnedVerbatim(reader: Reader, x: IPv4.Address, code: string)
    requires !IPv4.IsLocal(x)
    requires Country(reader, IPv4.Format(x)) == Found(code) && code != ""
    ensures GetCountryFromIp(Some(reader), IPv4.Format(x)) == code
  {
    IPv4.ParseFormat(x);
  }

  /** Every non-empty code the dataset can report satisfies `valid`. */
  ghost predicate DatasetCodesSatisfy(reader: Option<Reader>, valid: string -> bool)
  {
    reader.Some? ==>
      forall ip :: ip in reader.value.records && reader.value.records[ip] != Found("") ==>
        (reader.value.records[ip].Found? ==> valid(reader.value.records[ip].isoCode))
  }

  /** Whatever notion of valid code the dataset respects, and the fallback
      meets, the resolver's answer meets too. */
  lemma ResultValidWhenDatasetValid(reader: Option<Reader>, valid: string -> bool, ip: string)
    requires valid(Fallback)
    requires DatasetCodesSatisfy(reader, valid)
    ensures valid(GetCountryFromIp(reader, ip))
  {
    var code := GetCountryFromIp(reader, ip);
    if code != Fallback {
      assert ip in reader.value.records;
    }
  }

  /** A dataset of well-formed codes yields a well-formed code for every input. */
  lemma ResultIsCountryCode(reader: Option<Reader>, ip: string)
    requires DatasetCodesSatisfy(reader, Text.IsCountryCode)
    ensures Text.IsCountryCode(GetCountryFromIp(reader, ip))
  {
    ResultValidWhenDatasetValid(reader, Text.IsCountryCode, ip);
  }

  /** A public resolver address is looked up and its recorded code returned. */
  lemma PublicAddressExample()
    ensures GetCountryFromIp(Some(Reader(map["8.8.8.8" := Found("US")])), "8.8.8.8") == "US"
  {
    IPv4.PublicTextParses();
    IPv4.PublicExample();
  }
}
