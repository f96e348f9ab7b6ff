/**
  A discovered UPnP device: the parser that turns one SSDP search response
  into a device record, the record itself with its metadata getters, and the
  enrichment step that stores what the device's description document says.
 */
module Devices {
  import opened JavaLang

  /** What the core reads of a java.net.URL; `port` is -1 when the URL names no port. */
  datatype Url = Url(protocol: string, host: string, port: Port, path: string)

  /** -1 when the URL names no port; kept to the TCP range, although java.net.URL accepts any int from -1. */
  type Port = p: int | -1 <= p <= 65535

  /**
    The java.net.URL constructor, which this model does not contain: it is
    supplied by the caller, and None stands for a MalformedURLException.
   */
  type UrlParser = string -> Option<Url>

  /** Prefix of every key taken from an SSDP response. */
  const UpnpPrefix: string := "upnp_"
  const LocationKey: string := "upnp_location"
  const ServerKey: string := "upnp_server"

  /** Keys of the values taken from the description document. */
  const FriendlyNameKey: string := "xml_friendly_name"
  const DeviceTypeKey: string := "xml_device_type"
  const ManufacturerKey: string := "xml_manufacturer"
  const ManufacturerUrlKey: string := "xml_manufacturer_url"
  const ModelNameKey: string := "xml_model_name"
  const IconUrlKey: string := "xml_icon_url"

  const Unknown: string := "unknown"

  /** HashMap.get: null when the key is absent. */
  function Get(m: map<string, string>, key: string): (r: Option<string>)
    ensures r.Some? <==> key in m
    ensures r.Some? ==> r.value == m[key]
  {
    if key in m then Some(m[key]) else None
  }

  /** TextUtils.isEmpty: null or of length zero. */
  predicate IsEmpty(s: Option<string>)
  {
    s.None? || s.value == ""
  }

  // ---------------------------------------------------------------------
  // Response parsing
  // ---------------------------------------------------------------------

  /** The key a line whose first colon is at `colon` is stored under: the text before it, trimmed, lower-cased, prefixed. */
  function KeyBefore(line: string, colon: nat): string
    requires colon < |line|
  {
    UpnpPrefix + ToLowerCase(Trim(line[..colon]))
  }

  /** The value of a line whose first colon is at `colon`: everything after it, trimmed. */
  function ValueAfter(line: string, colon: nat): string
    requires colon < |line|
  {
    Trim(line[colon + 1..])
  }

  /** The key a header line is stored under. */
  function HeaderKey(line: string): string
    requires ':' in line
  {
    KeyBefore(line, IndexOf(line, ':'))
  }

  /** The value of a header line. */
  function HeaderValue(line: string): string
    requires ':' in line
  {
    ValueAfter(line, IndexOf(line, ':'))
  }

  /** Storing one response line: a line with a colon puts its value under its key. */
  function StoreLine(m: map<string, string>, line: string): map<string, string>
  {
    if ':' in line then m[HeaderKey(line) := HeaderValue(line)] else m
  }

  /** The map that storing the header lines one after the other builds. */
  function HeaderMap(lines: seq<string>): map<string, string>
  {
    if lines == [] then map[] else StoreLine(HeaderMap(lines[..|lines| - 1]), lines[|lines| - 1])
  }

  /** The map parseRaw returns: one entry per response line that holds a colon. */
  method ParseRaw(raw: string) returns (results: map<string, string>)
    ensures results == HeaderMap(SplitCrlf(raw))
  {
    var lines := SplitCrlf(raw);
    results := map[];
    var i := 0;
    while i < |lines|
      invariant 0 <= i <= |lines|
      invariant results == HeaderMap(lines[..i])
    {
      HeaderMapStep(lines, i);
      results := StoreHeaderLine(results, lines[i]);
      i := i + 1;
    }
    assert lines[..|lines|] == lines;
  }

  /** One pass of parseRaw's loop: a line with a colon puts its trimmed value under its key. */
  method StoreHeaderLine(results: map<string, string>, line: string) returns (updated: map<string, string>)
    ensures updated == StoreLine(results, line)
  {
    var colon := IndexOf(line, ':');
    StoreLineAt(results, line, colon);
    updated := results;
    if colon != -1 {
      updated := results[KeyBefore(line, colon) := ValueAfter(line, colon)];
    }
  }

  /** Storing a line, in terms of the position of its first colon. */
  lemma StoreLineAt(m: map<string, string>, line: string, colon: int)
    requires colon == IndexOf(line, ':')
    ensures colon == -1 ==> StoreLine(m, line) == m
    ensures colon != -1 ==> 0 <= colon < |line| && StoreLine(m, line) == m[KeyBefore(line, colon) := ValueAfter(line, colon)]
  {
  }

  /** Storing one more line. */
  lemma HeaderMapStep(lines: seq<string>, i: nat)
    requires i < |lines|
    ensures HeaderMap(lines[..i + 1]) == StoreLine(HeaderMap(lines[..i]), lines[i])
  {
    assert lines[..i + 1][..i] == lines[..i];
  }

  /** A key is present exactly when some line with a colon names it. */
  lemma HeaderMapKeys(lines: seq<string>, key: string)
    ensures key in HeaderMap(lines) <==>
      exists i :: 0 <= i < |lines| && ':' in lines[i] && HeaderKey(lines[i]) == key
  {
    if key in HeaderMap(lines) {
      var i := HeaderMapKeySource(lines, key);
    }
    if exists i :: 0 <= i < |lines| && ':' in lines[i] && HeaderKey(lines[i]) == key {
      var i :| 0 <= i < |lines| && ':' in lines[i] && HeaderKey(lines[i]) == key;
      HeaderMapKeyStored(lines, i);
    }
  }

  /** Every stored key comes from some line with a colon. */
  lemma {:induction false} HeaderMapKeySource(lines: seq<string>, key: string) returns (i: nat)
    requires key in HeaderMap(lines)
    ensures i < |lines| && ':' in lines[i] && HeaderKey(lines[i]) == key
  {
    var n := |lines| - 1;
    var init := lines[..n];
    StoreLineKeys(HeaderMap(init), lines[n], key);
    if key in HeaderMap(init) {
      i := HeaderMapKeySource(init, key);
      assert init[i] == lines[i];
    } else {
      i := n;
    }
  }

  /** The key of every line with a colon is stored. */
  lemma {:induction false} HeaderMapKeyStored(lines: seq<string>, i: nat)
    requires i < |lines| && ':' in lines[i]
    ensures HeaderKey(lines[i]) in HeaderMap(lines)
  {
    var n := |lines| - 1;
    var init := lines[..n];
    assert HeaderMap(lines) == StoreLine(HeaderMap(init), lines[n]);
    if i < n {
      assert init[i] == lines[i];
      HeaderMapKeyStored(init, i);
      StoreLineKeepsKey(HeaderMap(init), lines[n], HeaderKey(init[i]));
    } else {
      assert i == n;
      StoreLineStoresKey(HeaderMap(init), lines[n]);
    }
  }

  /** Storing a line with a colon adds its key. */
  lemma StoreLineStoresKey(m: map<string, string>, line: string)
    requires ':' in line
    ensures HeaderKey(line) in StoreLine(m, line)
  {
  }

  /** Storing a line keeps every key already there. */
  lemma StoreLineKeepsKey(m: map<string, string>, line: string, key: string)
    requires key in m
    ensures key in StoreLine(m, line)
  {
  }

  /** Storing a line adds its key, when it has one, and keeps every other. */
  lemma StoreLineKeys(m: map<string, string>, line: string, key: string)
    ensures key in StoreLine(m, line) <==> key in m || (':' in line && HeaderKey(line) == key)
  {
  }

  /** The value stored under a key is the value of the last line with that key. */
  lemma {:induction false} HeaderMapLastWins(lines: seq<string>, i: nat)
    requires i < |lines| && ':' in lines[i]
    requires forall j :: i < j < |lines| && ':' in lines[j] ==> HeaderKey(lines[j]) != HeaderKey(lines[i])
    ensures HeaderKey(lines[i]) in HeaderMap(lines)
    ensures HeaderMap(lines)[HeaderKey(lines[i])] == HeaderValue(lines[i])
  {
    var n := |lines| - 1;
    var init := lines[..n];
    assert HeaderMap(lines) == StoreLine(HeaderMap(init), lines[n]);
    if i < n {
      assert init[i] == lines[i];
      HeaderMapLastWins(init, i);
      StoreLineKeepsValue(HeaderMap(init), lines[n], HeaderKey(init[i]));
    } else {
      assert i == n;
      StoreLineStoresValue(HeaderMap(init), lines[n]);
    }
  }

  /** Storing a line with a colon puts its value under its key. */
  lemma StoreLineStoresValue(m: map<string, string>, line: string)
    requires ':' in line
    ensures HeaderKey(line) in StoreLine(m, line) && StoreLine(m, line)[HeaderKey(line)] == HeaderValue(line)
  {
  }

  /** Storing a line leaves the value under every other key alone. */
  lemma StoreLineKeepsValue(m: map<string, string>, line: string, key: string)
    requires key in m && (':' in line ==> HeaderKey(line) != key)
    ensures key in StoreLine(m, line) && StoreLine(m, line)[key] == m[key]
  {
  }

  /** A line without a colon adds nothing, wherever it stands. */
  lemma {:induction false} HeaderMapIgnoresLine(lines: seq<string>, i: nat)
    requires i < |lines| && ':' !in lines[i]
    ensures HeaderMap(lines[..i] + lines[i + 1..]) == HeaderMap(lines)
    decreases |lines|
  {
    var rest := lines[..i] + lines[i + 1..];
    var init := lines[..|lines| - 1];
    assert HeaderMap(lines) == StoreLine(HeaderMap(init), lines[|lines| - 1]);
    if i == |lines| - 1 {
      assert rest == init;
    } else {
      HeaderMapIgnoresLine(init, i);
      DropBeforeLast(lines, i);
      assert HeaderMap(rest) == StoreLine(HeaderMap(rest[..|rest| - 1]), rest[|rest| - 1]);
    }
  }

  /** Dropping an element before the last one keeps the last one last. */
  lemma DropBeforeLast(lines: seq<string>, i: nat)
    requires i < |lines| - 1
    ensures var rest := lines[..i] + lines[i + 1..];
      rest[..|rest| - 1] == lines[..|lines| - 1][..i] + lines[..|lines| - 1][i + 1..] &&
      rest[|rest| - 1] == lines[|lines| - 1]
  {
  }

  /** Every key carries the response namespace prefix. */
  lemma {:induction false} HeaderMapKeysPrefixed(lines: seq<string>)
    ensures forall k :: k in HeaderMap(lines) ==> UpnpPrefix <= k
  {
    if lines != [] {
      HeaderMapKeysPrefixed(lines[..|lines| - 1]);
    }
  }

  /** Only the first colon splits a line: the value keeps every later colon. */
  lemma HeaderLine(name: string, rest: string)
    requires ':' !in name
    ensures ':' in name + ":" + rest
    ensures HeaderKey(name + ":" + rest) == UpnpPrefix + ToLowerCase(Trim(name))
    ensures HeaderValue(name + ":" + rest) == Trim(rest)
  {
    var line := name + ":" + rest;
    IndexOfFirst(name, ':', rest);
    assert line[..|name|] == name;
    assert line[|name| + 1..] == rest;
  }

  /** Header names are case-insensitive: spellings that lower-case alike give one key. */
  lemma HeaderKeyCaseInsensitive(name1: string, name2: string, rest1: string, rest2: string)
    requires ':' !in name1 && ':' !in name2
    requires ToLowerCase(name1) == ToLowerCase(name2)
    ensures HeaderKey(name1 + ":" + rest1) == HeaderKey(name2 + ":" + rest2)
  {
    HeaderLine(name1, rest1);
    HeaderLine(name2, rest2);
    TrimLowerCommute(name1);
    TrimLowerCommute(name2);
  }

  /** Lower-casing does not touch white space, so it commutes with trimming. */
  lemma TrimLowerCommute(s: string)
    ensures ToLowerCase(Trim(s)) == Trim(ToLowerCase(s))
  {
    TrimStartLower(s);
    TrimEndLower(TrimStart(s));
  }

  lemma {:induction false} TrimStartLower(s: string)
    ensures ToLowerCase(TrimStart(s)) == TrimStart(ToLowerCase(s))
  {
    if |s| > 0 && IsTrimmed(s[0]) {
      assert ToLowerCase(s)[1..] == ToLowerCase(s[1..]);
      TrimStartLower(s[1..]);
    }
  }

  lemma {:induction false} TrimEndLower(s: string)
    ensures ToLowerCase(TrimEnd(s)) == TrimEnd(ToLowerCase(s))
  {
    if |s| > 0 && IsTrimmed(s[|s| - 1]) {
      assert ToLowerCase(s)[..|s| - 1] == ToLowerCase(s[..|s| - 1]);
      TrimEndLower(s[..|s| - 1]);
    }
  }

  /** The empty pieces that Java's split drops would have added nothing. */
  lemma SplitCrlfHeaderMap(raw: string)
    ensures HeaderMap(SplitCrlf(raw)) == HeaderMap(CrlfPieces(raw))
  {
    var pieces := CrlfPieces(raw);
    if |pieces| != 1 {
      HeaderMapDropEmpty(pieces);
    }
  }

  lemma {:induction false} HeaderMapDropEmpty(pieces: seq<string>)
    ensures HeaderMap(DropTrailingEmpty(pieces)) == HeaderMap(pieces)
    decreases |pieces|
  {
    if pieces != [] && pieces[|pieces| - 1] == "" {
      HeaderMapDropEmpty(pieces[..|pieces| - 1]);
    }
  }

  /** java.net.URL of the location header, where `new URL(null)` fails like a malformed URL. */
  function ParsedLocation(properties: map<string, string>, parseUrl: UrlParser): Option<Url>
  {
    if LocationKey in properties then parseUrl(properties[LocationKey]) else None
  }

  // ---------------------------------------------------------------------
  // Metadata
  // ---------------------------------------------------------------------

  /** The defaulting rule of the metadata getters. */
  function OrDefault(value: Option<string>, defaultValue: Option<string>): (r: string)
    ensures r != ""
    ensures !IsEmpty(value) ==> r == value.value
    ensures IsEmpty(value) && !IsEmpty(defaultValue) ==> r == defaultValue.value
    ensures IsEmpty(value) && IsEmpty(defaultValue) ==> r == Unknown
  {
    if IsEmpty(value) then (if !IsEmpty(defaultValue) then defaultValue.value else Unknown)
    else value.value
  }

  /** Removes the `host - ` prefix some vendors put before the friendly name. */
  function StripHostPrefix(name: string, host: string): (r: string)
    ensures host + " - " <= name ==> host + " - " + r == name
    ensures !(host + " - " <= name) ==> r == name
  {
    if host + " - " <= name then name[|host| + 3..] else name
  }

  /** The prefix is stripped exactly once, whatever follows it. */
  lemma StripHostPrefixOnce(host: string, rest: string)
    ensures StripHostPrefix(host + " - " + rest, host) == rest
  {
    var name := host + " - " + rest;
    assert (host + " - ") == name[..|host| + 3];
    assert name[|host| + 3..] == rest;
  }

  /** The record of one discovered device. */
  datatype Description = Description(
    friendlyName: string, deviceType: string, manufacturer: string,
    manufacturerUrl: string, modelName: string, iconUrl: string)

  /**
    The outcome of the HTTP GET of the description document: an unsuccessful
    status, or a body (null when the response has none) and, when that body
    parses as XML, the text the six XPath lookups return ("" for no match).
   */
  datatype Fetch = Unsuccessful | Fetched(body: Option<string>, document: Option<Description>)

  /** The properties after the six description lookups have been stored. */
  function WithDescription(properties: map<string, string>, d: Description): (r: map<string, string>)
    ensures r.Keys == properties.Keys + {FriendlyNameKey, DeviceTypeKey, ManufacturerKey, ManufacturerUrlKey, ModelNameKey, IconUrlKey}
    ensures r[FriendlyNameKey] == d.friendlyName && r[DeviceTypeKey] == d.deviceType
    ensures r[ManufacturerKey] == d.manufacturer && r[ManufacturerUrlKey] == d.manufacturerUrl
    ensures r[ModelNameKey] == d.modelName && r[IconUrlKey] == d.iconUrl
    ensures forall k :: k in properties && UpnpPrefix <= k ==> r[k] == properties[k]
  {
    DescriptionKeyLengths();
    HeaderKeysAreNotDescriptionKeys(properties);
    properties[FriendlyNameKey := d.friendlyName][DeviceTypeKey := d.deviceType]
              [ManufacturerKey := d.manufacturer][ManufacturerUrlKey := d.manufacturerUrl]
              [ModelNameKey := d.modelName][IconUrlKey := d.iconUrl]
  }

  /** The six description keys have six different lengths, so they are distinct. */
  lemma DescriptionKeyLengths()
    ensures |FriendlyNameKey| == 17 && |DeviceTypeKey| == 15 && |ManufacturerKey| == 16
    ensures |ManufacturerUrlKey| == 20 && |ModelNameKey| == 14 && |IconUrlKey| == 12
  {
  }

  /** A response-header key starts with `u`, a description key with `x`: they never clash. */
  lemma HeaderKeysAreNotDescriptionKeys(properties: map<string, string>)
    ensures forall k :: k in properties && UpnpPrefix <= k ==>
      k != FriendlyNameKey && k != DeviceTypeKey && k != ManufacturerKey &&
      k != ManufacturerUrlKey && k != ModelNameKey && k != IconUrlKey
  {
    forall k | k in properties && UpnpPrefix <= k
      ensures k != FriendlyNameKey && k != DeviceTypeKey && k != ManufacturerKey &&
        k != ManufacturerUrlKey && k != ModelNameKey && k != IconUrlKey
    {
      assert k[0] == 'u';
    }
  }

  /** `path` with at most one leading slash removed. */
  function StripLeadingSlash(path: string): (r: string)
  {
    if "/" <= path then path[1..] else path
  }

  /** The icon address exactly as generateIconUrl composes it: `-1` is written when the location names no port. */
  function IconUrlAsWritten(location: Url, path: string): string
  {
    location.protocol + "://" + location.host + ":" + IntToString(location.port) + "/" + StripLeadingSlash(path)
  }

  /** Host and, when the location names one, port. */
  function Authority(location: Url): string
  {
    location.host + (if location.port == -1 then "" else ":" + IntToString(location.port))
  }

  /** The icon address on the location's protocol, host and port, never with a `-1` port. */
  function IconUrl(location: Url, path: string): (r: string)
    ensures location.port != -1 ==> r == IconUrlAsWritten(location, path)
  {
    location.protocol + "://" + Authority(location) + "/" + StripLeadingSlash(path)
  }

  /** With no port in the location, the code as written produces the port `-1`. */
  lemma IconUrlAsWrittenNoPort(location: Url, path: string)
    requires location.port == -1
    ensures IconUrlAsWritten(location, path) == location.protocol + "://" + location.host + ":-1/" + StripLeadingSlash(path)
  {
    assert IntToString(-1) == "-1";
  }

  /** The address the corrected rule gives: the location's own port in digits, or none. */
  lemma IconUrlPort(location: Url, path: string)
    ensures location.port == -1 ==>
      IconUrl(location, path) == location.protocol + "://" + location.host + "/" + StripLeadingSlash(path)
    ensures location.port != -1 ==>
      IconUrl(location, path) == IconUrlAsWritten(location, path) &&
      IconUrl(location, path) == location.protocol + "://" + location.host + ":" + NatToDigits(location.port) + "/" + StripLeadingSlash(path)
  {
  }

  /** One leading slash more or less gives the same icon address. */
  lemma IconUrlLeadingSlash(location: Url, path: string)
    requires path == [] || path[0] != '/'
    ensures IconUrl(location, "/" + path) == IconUrl(location, path)
  {
    assert ("/" + path)[1..] == path;
  }

  class Device {
    const rawUPnP: string
    const location: Url
    const server: Option<string>
    var properties: map<string, string>
    var rawXml: Option<string>
    var cachedIconUrl: Option<string>

    constructor (raw: string, properties: map<string, string>, location: Url, server: Option<string>)
      ensures rawUPnP == raw && this.properties == properties
      ensures this.location == location && this.server == server
      ensures rawXml.None? && cachedIconUrl.None?
    {
      rawUPnP := raw;
      this.properties := properties;
      this.location := location;
      this.server := server;
      rawXml := None;
      cachedIconUrl := None;
    }

    function GetHost(): string
    {
      location.host
    }

    /** The friendly name, less a leading `host - `, or the default. */
    function GetFriendlyName(defaultValue: Option<string>): (r: string)
      reads this
      ensures r != ""
      ensures FriendlyNameKey in properties && StripHostPrefix(properties[FriendlyNameKey], GetHost()) != "" ==>
        r == StripHostPrefix(properties[FriendlyNameKey], GetHost())
      ensures FriendlyNameKey !in properties || StripHostPrefix(properties[FriendlyNameKey], GetHost()) == "" ==>
        r == OrDefault(None, defaultValue)
    {
      var friendlyName := Get(properties, FriendlyNameKey);
      var name := if friendlyName.Some? then Some(StripHostPrefix(friendlyName.value, GetHost())) else None;
      OrDefault(name, defaultValue)
    }

    function GetDeviceType(defaultValue: Option<string>): (r: string)
      reads this
      ensures r != ""
      ensures DeviceTypeKey in properties && properties[DeviceTypeKey] != "" ==> r == properties[DeviceTypeKey]
      ensures DeviceTypeKey !in properties || properties[DeviceTypeKey] == "" ==> r == OrDefault(None, defaultValue)
    {
      OrDefault(Get(properties, DeviceTypeKey), defaultValue)
    }

    function GetManufacturer(defaultValue: Option<string>): (r: string)
      reads this
      ensures r != ""
      ensures ManufacturerKey in properties && properties[ManufacturerKey] != "" ==> r == properties[ManufacturerKey]
      ensures ManufacturerKey !in properties || properties[ManufacturerKey] == "" ==> r == OrDefault(None, defaultValue)
    {
      OrDefault(Get(properties, ManufacturerKey), defaultValue)
    }

    /** The manufacturer URL as stored, with no defaulting. */
    function GetManufacturerUrl(): (r: Option<string>)
      reads this
      ensures r.Some? <==> ManufacturerUrlKey in properties
    ensures r.Some? ==> r.value == properties[ManufacturerUrlKey]
    {
      Get(properties, ManufacturerUrlKey)
    }

    function GetModelName(defaultValue: Option<string>): (r: string)
      reads this
      ensures r != ""
      ensures ModelNameKey in properties && properties[ModelNameKey] != "" ==> r == properties[ModelNameKey]
      ensures ModelNameKey !in properties || properties[ModelNameKey] == "" ==> r == OrDefault(None, defaultValue)
    {
      OrDefault(Get(properties, ModelNameKey), defaultValue)
    }

    /** Sets the icon address from the stored icon path; an absent or empty path leaves it alone. */
    method GenerateIconUrl()
      modifies this`cachedIconUrl
      ensures IsEmpty(Get(properties, IconUrlKey)) ==> cachedIconUrl == old(cachedIconUrl)
      ensures !IsEmpty(Get(properties, IconUrlKey)) ==>
        cachedIconUrl == Some(IconUrl(location, properties[IconUrlKey]))
    {
      var path := Get(properties, IconUrlKey);
      if IsEmpty(path) {
        return;
      }
      var p := path.value;
      if "/" <= p {
        p := p[1..];
      }
      cachedIconUrl := Some(location.protocol + "://" + Authority(location) + "/" + p);
    }

    /**
      Stores what the description document says. An unsuccessful status
      changes nothing and reports failure; a body that is not XML is kept
      as raw text and changes nothing else.
     */
    method DownloadSpecs(fetch: Fetch) returns (ok: bool)
      modifies this`properties, this`rawXml, this`cachedIconUrl
      ensures ok == fetch.Fetched?
      ensures !ok ==> properties == old(properties) && rawXml == old(rawXml) && cachedIconUrl == old(cachedIconUrl)
      ensures ok ==> rawXml == Some(if fetch.body.Some? then fetch.body.value else "")
      ensures ok && fetch.document.None? ==> properties == old(properties) && cachedIconUrl == old(cachedIconUrl)
      ensures ok && fetch.document.Some? ==>
        properties == WithDescription(old(properties), fetch.document.value) &&
        (fetch.document.value.iconUrl == "" ==> cachedIconUrl == old(cachedIconUrl)) &&
        (fetch.document.value.iconUrl != "" ==> cachedIconUrl == Some(IconUrl(location, fetch.document.value.iconUrl)))
    {
      if fetch.Unsuccessful? {
        return false;
      }
      rawXml := Some(if fetch.body.Some? then fetch.body.value else "");
      if fetch.document.None? {
        return true;
      }
      var d := fetch.document.value;
      properties := properties[FriendlyNameKey := d.friendlyName];
      properties := properties[DeviceTypeKey := d.deviceType];
      properties := properties[ManufacturerKey := d.manufacturer];
      properties := properties[ManufacturerUrlKey := d.manufacturerUrl];
      properties := properties[ModelNameKey := d.modelName];
      properties := properties[IconUrlKey := d.iconUrl];
      GenerateIconUrl();
      return true;
    }
  }

  /**
    UPnPDevice.parse: null when the response has no location header or its
    value is not a URL; otherwise a fresh record of the response.
   */
  method Parse(raw: string, parseUrl: UrlParser) returns (device: Device?)
    ensures device == null <==> ParsedLocation(HeaderMap(SplitCrlf(raw)), parseUrl).None?
    ensures device != null ==>
      fresh(device) &&
      device.rawUPnP == raw &&
      device.properties == HeaderMap(SplitCrlf(raw)) &&
      Some(device.location) == ParsedLocation(device.properties, parseUrl) &&
      device.server == Get(device.properties, ServerKey) &&
      device.rawXml.None? && device.cachedIconUrl.None?
  {
    var parsed := ParseRaw(raw);
    var location := ParsedLocation(parsed, parseUrl);
    if location.None? {
      return null;
    }
    device := new Device(raw, parsed, location.value, Get(parsed, ServerKey));
  }
}
