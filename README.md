# UPnP browser discovery core, in Dafny

This project models the in-memory part of the SSDP/UPnP discovery flow of
an Android UPnP browser, and proves properties of that model. It has four
parts.

- **Device record** (`devices.dfy`, module `Devices`).
  - An SSDP search response is parsed into a map of `upnp_`-prefixed headers.
  - A device record is built from that map when its `location` header is a URL.
  - Metadata getters apply the record's defaulting rule.
  - The enrichment step stores what the device's description document says
    and derives the absolute icon address.
- **Device order** (`ordering.dfy`, module `Ordering`). Devices are compared
  by the resolved address of their location's host (shorter first, then
  unsigned bytewise), then by port, then by path.
- **Device list** (`adapter.dfy`, module `Adapter`).
  - The adapter keeps a list sorted by that order.
  - A new device replaces one that compares equal. Otherwise it is inserted
    where a binary search puts it.
- **Finder** (`finder.dfy`, module `Finder`).
  - The M-SEARCH request text.
  - The socket receive timeout.
  - The dotted-quad test.
  - The choice of the local address the multicast socket binds to.

`java_lang.dfy` (module `JavaLang`) states the Java library behaviour the core
relies on:
- `String.trim`, `indexOf`, `split("\r\n")`, `compareTo` and ASCII case mapping;
- `Integer`/`Long.toString`;
- `int` wrap-around and `TimeUnit` truncation.

Two foreign calls are parameters of the model, not parts of it:
- URL parsing (`java.net.URL`) is a function `string -> Option<Url>`;
- host resolution (`InetAddress.getByName`) is a function `string -> Option<address bytes>`.

Where the code leaves a case to throw, the model states the domain on which
it returns. Examples: the comparator on one null device, or `ArrayList.get`
out of range.

Two behaviours of the code are worth stating up front.
- **No local address.** When no interface has a qualifying address,
  `getDeviceLocalIP` returns null and the socket is bound to the wildcard
  address; no error is raised. `Finder.LocalAddress` returns None in that
  case.
- **Merge on duplicate.** `addItem` replaces the whole element that compares
  equal to the new device, not only some of its fields, and so does
  `Adapter.Insert`.

## Model

| member | source | states |
|---|---|---|
| JavaLang.WrapInt32 | app/src/main/java/com/dgmltn/upnpbrowser/UPnPDeviceFinder.java:147 | Java `int` addition: the result is congruent to the exact sum modulo 2^32 and equals it when it fits in 32 bits |
| JavaLang.MillisToSeconds | app/src/main/java/com/dgmltn/upnpbrowser/UPnPDeviceFinder.java:193 | `toSeconds` truncates toward zero: for non-negative ms, s*1000 <= ms < s*1000+1000, and the mirror bounds for negative ms |
| JavaLang.ToLowerCase | app/src/main/java/com/dgmltn/upnpbrowser/UPnPDevice.java:196 | lower-casing keeps the length and maps every character by itself |
| JavaLang.ToUpperCase | app/src/main/java/com/dgmltn/upnpbrowser/UPnPDeviceFinder.java:210 | upper-casing keeps the length and maps every character by itself |
| JavaLang.Trim | app/src/main/java/com/dgmltn/upnpbrowser/UPnPDevice.java:196-197 | the trimmed text is no longer than the input and neither starts nor ends with a character <= U+0020 |
| JavaLang.TrimIdentity | app/src/main/java/com/dgmltn/upnpbrowser/UPnPDevice.java:196-197 | text without surrounding white space is left unchanged |
| JavaLang.TrimPadding | app/src/main/java/com/dgmltn/upnpbrowser/UPnPDevice.java:196-197 | surrounding white space of any length is removed and the inner text is kept exactly |
| JavaLang.IndexOf | app/src/main/java/com/dgmltn/upnpbrowser/UPnPDevice.java:194 | -1 exactly when the character is absent; otherwise a position holding it with no earlier occurrence |
| JavaLang.IndexOfFirst | app/src/main/java/com/dgmltn/upnpbrowser/UPnPDevice.java:194 | the first occurrence is found however many follow it |
| JavaLang.CrlfPieces | app/src/main/java/com/dgmltn/upnpbrowser/UPnPDevice.java:193 | splitting at CRLF yields at least one piece, no piece holds a CRLF, and the first piece starts the text |
| JavaLang.JoinCrlfPieces | app/src/main/java/com/dgmltn/upnpbrowser/UPnPDevice.java:193 | splitting loses nothing: joining the pieces with CRLF gives back the input |
| JavaLang.CrlfPiecesCons | app/src/main/java/com/dgmltn/upnpbrowser/UPnPDevice.java:193 | a line without a carriage return followed by CRLF is split off as exactly one piece |
| JavaLang.CrlfPiecesSingle | app/src/main/java/com/dgmltn/upnpbrowser/UPnPDevice.java:193 | text without a carriage return is one piece |
| JavaLang.SplitCrlf | app/src/main/java/com/dgmltn/upnpbrowser/UPnPDevice.java:193 | `split("\r\n")` gives a prefix of the pieces, dropping only empty trailing ones, and no piece holds a CRLF |
| JavaLang.SplitCrlfSingle | app/src/main/java/com/dgmltn/upnpbrowser/UPnPDevice.java:193 | text without a carriage return splits into itself alone |
| JavaLang.DropTrailingEmpty | app/src/main/java/com/dgmltn/upnpbrowser/UPnPDevice.java:193 | `split` removes only trailing empty pieces: the result is a prefix that does not end with an empty piece, and everything dropped is empty |
| JavaLang.CompareTo | app/src/main/java/com/dgmltn/upnpbrowser/UPnPDeviceComparator.java:65 | `String.compareTo` is 0 exactly when the strings are equal; its sign is fixed by `CompareToFirstDifference` and `CompareToPrefix` |
| JavaLang.CompareToFirstDifference | app/src/main/java/com/dgmltn/upnpbrowser/UPnPDeviceComparator.java:65 | at the first index where the paths differ, the result is the difference of the two characters there |
| JavaLang.CompareToPrefix | app/src/main/java/com/dgmltn/upnpbrowser/UPnPDeviceComparator.java:65 | when one path is a prefix of the other, the result is the length difference, negative for a proper prefix on the left |
| JavaLang.CompareToAntisymmetric | app/src/main/java/com/dgmltn/upnpbrowser/UPnPDeviceComparator.java:65 | swapping the paths negates the result |
| JavaLang.CompareToTransitive | app/src/main/java/com/dgmltn/upnpbrowser/UPnPDeviceComparator.java:65 | the path order is transitive, and strictly so when either step is strict |
| JavaLang.NatToDigits | app/src/main/java/com/dgmltn/upnpbrowser/UPnPDeviceFinder.java:193 | the decimal rendering is non-empty, all digits, and has no leading zero |
| JavaLang.NatToDigitsValue | app/src/main/java/com/dgmltn/upnpbrowser/UPnPDeviceFinder.java:193 | the digits read back give the number |
| JavaLang.IntToString | app/src/main/java/com/dgmltn/upnpbrowser/UPnPDeviceFinder.java:193 | `Long.toString` is non-empty and starts with `-` exactly for a negative value |
| JavaLang.IntToStringRoundTrip | app/src/main/java/com/dgmltn/upnpbrowser/UPnPDeviceFinder.java:193 | `Long.toString` read back as a decimal gives the value |
| JavaLang.IntToStringCharacters | app/src/main/java/com/dgmltn/upnpbrowser/UPnPDeviceFinder.java:191-193 | a rendered number holds no carriage return, colon or dot |
| Devices.Get | app/src/main/java/com/dgmltn/upnpbrowser/UPnPDevice.java:105 | `HashMap.get` gives a value exactly when the key is present, and then the stored one |
| Devices.ParseRaw | app/src/main/java/com/dgmltn/upnpbrowser/UPnPDevice.java:191-202 | the loop builds the map of the CRLF-split lines, stored one after the other |
| Devices.StoreHeaderLine | app/src/main/java/com/dgmltn/upnpbrowser/UPnPDevice.java:194-198 | one pass of the loop: a line with a colon puts its trimmed value under its prefixed, trimmed, lower-cased name; a line without one leaves the map as it was |
| Devices.HeaderMapStep | app/src/main/java/com/dgmltn/upnpbrowser/UPnPDevice.java:194-198 | one more line adds its key and value when it holds a colon and changes nothing otherwise |
| Devices.HeaderMapKeys | app/src/main/java/com/dgmltn/upnpbrowser/UPnPDevice.java:193-198 | a key is in the map exactly when some line with a colon normalises to it |
| Devices.HeaderMapKeySource | app/src/main/java/com/dgmltn/upnpbrowser/UPnPDevice.java:193-198 | every stored key comes from some line with a colon, whose index the lemma returns |
| Devices.HeaderMapKeyStored | app/src/main/java/com/dgmltn/upnpbrowser/UPnPDevice.java:193-198 | the key of every line with a colon is in the map |
| Devices.HeaderMapLastWins | app/src/main/java/com/dgmltn/upnpbrowser/UPnPDevice.java:196-198 | a key maps to the value of the last line with that key |
| Devices.HeaderMapIgnoresLine | app/src/main/java/com/dgmltn/upnpbrowser/UPnPDevice.java:194-195 | a line without a colon (the status line, a blank line) adds nothing, wherever it stands |
| Devices.HeaderMapKeysPrefixed | app/src/main/java/com/dgmltn/upnpbrowser/UPnPDevice.java:198 | every key starts with `upnp_` |
| Devices.HeaderLine | app/src/main/java/com/dgmltn/upnpbrowser/UPnPDevice.java:194-197 | only the first colon splits: the key is `upnp_` + lower(trim(name)) and the value is trim(rest), later colons included |
| Devices.HeaderKeyCaseInsensitive | app/src/main/java/com/dgmltn/upnpbrowser/UPnPDevice.java:196 | header names that lower-case alike (`LOCATION`, `location`) give the same key |
| Devices.TrimLowerCommute | app/src/main/java/com/dgmltn/upnpbrowser/UPnPDevice.java:196 | trimming and lower-casing a key can be done in either order |
| Devices.SplitCrlfHeaderMap | app/src/main/java/com/dgmltn/upnpbrowser/UPnPDevice.java:193 | the trailing empty pieces that `split` drops would add nothing to the map |
| Devices.Parse | app/src/main/java/com/dgmltn/upnpbrowser/UPnPDevice.java:175-189 | null exactly when `upnp_location` is absent or not a URL; otherwise a fresh record with the raw text, the header map, the parsed location and `upnp_server` (possibly absent) |
| Devices.OrDefault | app/src/main/java/com/dgmltn/upnpbrowser/UPnPDevice.java:120-122 | never empty: a non-empty value, else a non-empty default, else `unknown` |
| Devices.StripHostPrefix | app/src/main/java/com/dgmltn/upnpbrowser/UPnPDevice.java:108-110 | a name starting with `host - ` loses exactly that prefix; any other name is unchanged |
| Devices.StripHostPrefixOnce | app/src/main/java/com/dgmltn/upnpbrowser/UPnPDevice.java:108-110 | the prefix is removed once, even when the rest starts with it again |
| Devices.Device.constructor | app/src/main/java/com/dgmltn/upnpbrowser/UPnPDevice.java:178-182 | a new record holds the raw text, the header map, the location and the server, with no raw XML and no icon address yet |
| Devices.Device.GetHost | app/src/main/java/com/dgmltn/upnpbrowser/UPnPDevice.java:63-65 | the host of the record's location (no contract; it is the field itself) |
| Devices.Device.GetFriendlyName | app/src/main/java/com/dgmltn/upnpbrowser/UPnPDevice.java:104-114 | never empty; the stripped name when it is non-empty, otherwise the default rule, also when stripping leaves nothing |
| Devices.Device.GetDeviceType | app/src/main/java/com/dgmltn/upnpbrowser/UPnPDevice.java:118-123 | never empty; a non-empty stored device type, otherwise the default or `unknown` |
| Devices.Device.GetManufacturer | app/src/main/java/com/dgmltn/upnpbrowser/UPnPDevice.java:127-132 | never empty; a non-empty stored manufacturer, otherwise the default or `unknown` |
| Devices.Device.GetManufacturerUrl | app/src/main/java/com/dgmltn/upnpbrowser/UPnPDevice.java:136-138 | present exactly when stored, and then the stored value itself, with no defaulting |
| Devices.Device.GetModelName | app/src/main/java/com/dgmltn/upnpbrowser/UPnPDevice.java:142-147 | never empty; a non-empty stored model name, otherwise the default or `unknown` |
| Devices.WithDescription | app/src/main/java/com/dgmltn/upnpbrowser/UPnPDevice.java:235-241 | the six `xml_` keys are added with the document's values, and every SSDP (`upnp_`) entry is unchanged |
| Devices.Device.DownloadSpecs | app/src/main/java/com/dgmltn/upnpbrowser/UPnPDevice.java:210-243 | an unsuccessful status changes nothing; a body is kept as raw XML (empty when absent); a body that is not XML changes nothing else; otherwise the six values are stored and the icon address is derived by the corrected rule (admitted under Left out) |
| Devices.Device.GenerateIconUrl | app/src/main/java/com/dgmltn/upnpbrowser/UPnPDevice.java:245-254 | an absent or empty icon path leaves the icon address unchanged; otherwise it is the corrected absolute address `IconUrl` (no `:-1` for a location without a port; admitted under Left out) |
| Devices.IconUrlAsWritten | app/src/main/java/com/dgmltn/upnpbrowser/UPnPDevice.java:249-253 | the icon address exactly as composed in the source, `protocol://host:port/path` with `getPort()` written even when it is -1 (no contract; its port-less case is stated by `IconUrlAsWrittenNoPort`) |
| Devices.IconUrl | app/src/main/java/com/dgmltn/upnpbrowser/UPnPDevice.java:249-253 | the corrected icon address; whenever the location names a port it equals the address as written |
| Devices.IconUrlAsWrittenNoPort | app/src/main/java/com/dgmltn/upnpbrowser/UPnPDevice.java:253 | as written, a location without a port gives an icon address with port `-1` |
| Devices.IconUrlPort | app/src/main/java/com/dgmltn/upnpbrowser/UPnPDevice.java:253 | the corrected address has no port when the location names none, and equals the address as written when it does |
| Devices.IconUrlLeadingSlash | app/src/main/java/com/dgmltn/upnpbrowser/UPnPDevice.java:250-253 | `/icon.png` and `icon.png` give the same icon address |
| Ordering.CompareNull | app/src/main/java/com/dgmltn/upnpbrowser/UPnPDeviceComparator.java:74-82 | -1 for (null, non-null), 1 for (non-null, null), 0 exactly when both or neither are null |
| Ordering.UnsignedByteToInt | app/src/main/java/com/dgmltn/upnpbrowser/UPnPDeviceComparator.java:138-140 | the byte read as an unsigned value in 0..255, congruent to it modulo 256 |
| Ordering.UnsignedByteToIntInjective | app/src/main/java/com/dgmltn/upnpbrowser/UPnPDeviceComparator.java:138-140 | two bytes read alike are the same byte |
| Ordering.CompareBytesFrom | app/src/main/java/com/dgmltn/upnpbrowser/UPnPDeviceComparator.java:123-135 | the byte loop gives -1, 0 or 1; 0 exactly when the remaining bytes are equal; -1 exactly when the first differing byte is smaller as unsigned |
| Ordering.CompareBytesFromAntisymmetric | app/src/main/java/com/dgmltn/upnpbrowser/UPnPDeviceComparator.java:123-135 | swapping the arrays negates the loop's result |
| Ordering.CompareBytesFromTransitive | app/src/main/java/com/dgmltn/upnpbrowser/UPnPDeviceComparator.java:123-135 | the loop's order is transitive, strictly so when either step is strict |
| Ordering.CompareInetAddress | app/src/main/java/com/dgmltn/upnpbrowser/UPnPDeviceComparator.java:110-136 | a shorter array is -1 and a longer one 1, whatever the bytes; 0 exactly for identical arrays; for equal lengths, -1 exactly when the first differing byte is smaller |
| Ordering.CompareInetAddressAntisymmetric | app/src/main/java/com/dgmltn/upnpbrowser/UPnPDeviceComparator.java:110-136 | swapping the addresses negates the result |
| Ordering.CompareInetAddressTransitive | app/src/main/java/com/dgmltn/upnpbrowser/UPnPDeviceComparator.java:110-136 | the address order is transitive, strictly so when either step is strict |
| Ordering.CompareInetAddresses | app/src/main/java/com/dgmltn/upnpbrowser/UPnPDeviceComparator.java:88-108 | for hosts that resolve alike: 0 when neither host resolves, and otherwise exactly `compareInetAddress` of the two resolved addresses; 0 exactly when the resolutions are equal |
| Ordering.Compare | app/src/main/java/com/dgmltn/upnpbrowser/UPnPDeviceComparator.java:30-66 | on its domain, 0 exactly when both devices are null, or both have the same resolved address, port and path |
| Ordering.CompareReflexive | app/src/main/java/com/dgmltn/upnpbrowser/UPnPDeviceComparator.java:30-66 | every device is comparable with itself and compares 0 |
| Ordering.CompareAntisymmetric | app/src/main/java/com/dgmltn/upnpbrowser/UPnPDeviceComparator.java:30-66 | swapping the devices negates the result, so the signs are opposite |
| Ordering.CompareTransitive | app/src/main/java/com/dgmltn/upnpbrowser/UPnPDeviceComparator.java:30-66 | the device order is transitive, strictly so when either step is strict |
| Ordering.ShorterAddressFirst | app/src/main/java/com/dgmltn/upnpbrowser/UPnPDeviceComparator.java:114-120 | a device whose host resolves to a shorter address (IPv4 against IPv6) compares -1 |
| Ordering.ResolvedAddressesDecide | app/src/main/java/com/dgmltn/upnpbrowser/UPnPDeviceComparator.java:46-50 | two hosts resolving to different addresses are ordered by `compareInetAddress` of those addresses alone, and never tie |
| Ordering.EqualAddressesFallThrough | app/src/main/java/com/dgmltn/upnpbrowser/UPnPDeviceComparator.java:52-65 | two hosts resolving to the same address tie on the address; the port difference, then the path comparison, decide |
| Ordering.UnresolvedHostsFallThrough | app/src/main/java/com/dgmltn/upnpbrowser/UPnPDeviceComparator.java:102-105 | two unresolvable hosts tie on the address; the port difference, then the path comparison, decide |
| Adapter.BinarySearch | app/src/main/java/com/dgmltn/upnpbrowser/UPnPDeviceAdapter.java:91 | on a sorted list: a non-negative result is the index of an equal device; a negative result -(p+1) has every device before p below the key and every device from p on above it |
| Adapter.InsertAtPosition | app/src/main/java/com/dgmltn/upnpbrowser/UPnPDeviceAdapter.java:92-95 | with no equal device, the new list is the old one with the item inserted at the search's position, all others kept in order |
| Adapter.InsertReplaces | app/src/main/java/com/dgmltn/upnpbrowser/UPnPDeviceAdapter.java:96-98 | in a strictly sorted list, the equal device at index i is replaced whole by the item, and nothing else changes |
| Adapter.InsertElements | app/src/main/java/com/dgmltn/upnpbrowser/UPnPDeviceAdapter.java:90-100 | every device of the new list is the item or was listed before |
| Adapter.InsertContains | app/src/main/java/com/dgmltn/upnpbrowser/UPnPDeviceAdapter.java:90-100 | the item is in the list after it is added |
| Adapter.InsertSorted | app/src/main/java/com/dgmltn/upnpbrowser/UPnPDeviceAdapter.java:90-100 | a list sorted with no two equal devices stays so after adding |
| Adapter.InsertLength | app/src/main/java/com/dgmltn/upnpbrowser/UPnPDeviceAdapter.java:90-100 | the size is unchanged when an equal device was listed and grows by exactly one otherwise |
| Adapter.MergeOnDuplicate | app/src/main/java/com/dgmltn/upnpbrowser/UPnPDeviceAdapter.java:90-100 | adding a device equal to one just added keeps the size; the later device is listed and the earlier one no longer is |
| Adapter.DeviceAdapter.constructor | app/src/main/java/com/dgmltn/upnpbrowser/UPnPDeviceAdapter.java:54-63 | a new adapter has an empty, sorted list |
| Adapter.DeviceAdapter.GetItemCount | app/src/main/java/com/dgmltn/upnpbrowser/UPnPDeviceAdapter.java:75-77 | the count is the list's length |
| Adapter.DeviceAdapter.GetItem | app/src/main/java/com/dgmltn/upnpbrowser/UPnPDeviceAdapter.java:80-82 | the device at an in-range position |
| Adapter.DeviceAdapter.Clear | app/src/main/java/com/dgmltn/upnpbrowser/UPnPDeviceAdapter.java:84-88 | afterwards the list is empty and the count is 0 |
| Adapter.DeviceAdapter.AddItem | app/src/main/java/com/dgmltn/upnpbrowser/UPnPDeviceAdapter.java:90-100 | the new list is the linear-scan insert of the item, it keeps the sorted-without-duplicates invariant, and it contains the item |
| Finder.DeviceFinder.Default | app/src/main/java/com/dgmltn/upnpbrowser/UPnPDeviceFinder.java:68-70 | the default finder uses 60000 ms and the first qualifying IPv4 local address |
| Finder.DeviceFinder.constructor | app/src/main/java/com/dgmltn/upnpbrowser/UPnPDeviceFinder.java:72-87 | the finder keeps the timeout and the first qualifying IPv4 local address, None when there is none |
| Finder.DeviceFinder.BuildSSDPSearchString | app/src/main/java/com/dgmltn/upnpbrowser/UPnPDeviceFinder.java:187-200 | the appended text is the five search lines and one empty line, each ended by CRLF |
| Finder.CrlfTerminatedCons | app/src/main/java/com/dgmltn/upnpbrowser/UPnPDeviceFinder.java:190-195 | the first line, ended by CRLF, is followed by the rest of the text |
| Finder.CrlfTerminatedPieces | app/src/main/java/com/dgmltn/upnpbrowser/UPnPDeviceFinder.java:190-195 | CRLF-ended lines without carriage returns split back into exactly those lines and one empty piece |
| Finder.SearchRequestPieces | app/src/main/java/com/dgmltn/upnpbrowser/UPnPDeviceFinder.java:190-195 | the request is exactly the five lines, then an empty line, then nothing |
| Finder.SearchLinesNoCarriageReturn | app/src/main/java/com/dgmltn/upnpbrowser/UPnPDeviceFinder.java:190-194 | no line of the request holds a carriage return, whatever the timeout |
| Finder.SearchRequestSplit | app/src/main/java/com/dgmltn/upnpbrowser/UPnPDeviceFinder.java:190-195 | `split("\r\n")` on the request, as the response parser does, gives exactly the five lines |
| Finder.SearchRequestEnds | app/src/main/java/com/dgmltn/upnpbrowser/UPnPDeviceFinder.java:194-195 | the request ends with `\r\n\r\n` |
| Finder.SearchRequestMaxWait | app/src/main/java/com/dgmltn/upnpbrowser/UPnPDeviceFinder.java:193 | the MX value reads back as the timeout in seconds, truncated toward zero |
| Finder.SearchRequestHost | app/src/main/java/com/dgmltn/upnpbrowser/UPnPDeviceFinder.java:191 | the Host line is `Host: 239.255.255.250:1900` |
| Finder.SocketTimeout | app/src/main/java/com/dgmltn/upnpbrowser/UPnPDeviceFinder.java:147 | the timeout is `timeoutMs + 1000` wrapped to 32 bits, rejected exactly when that is negative |
| Finder.DeviceFinder.ReceiveTimeout | app/src/main/java/com/dgmltn/upnpbrowser/UPnPDeviceFinder.java:147 | for timeouts up to the int maximum less 1000, the receive timeout is exactly `timeoutMs + 1000` |
| Finder.DefaultSocketTimeout | app/src/main/java/com/dgmltn/upnpbrowser/UPnPDeviceFinder.java:55 | the default finder waits 61000 ms |
| Finder.SocketTimeoutOverflow | app/src/main/java/com/dgmltn/upnpbrowser/UPnPDeviceFinder.java:147 | a timeout within 1000 of the int maximum wraps negative and is rejected |
| Finder.OctetPatternValue | app/src/main/java/com/dgmltn/upnpbrowser/UPnPDeviceFinder.java:61-62 | a group matches exactly when it is 1-3 ASCII digits worth at most 255; leading zeros such as `001` pass |
| Finder.DotGroups | app/src/main/java/com/dgmltn/upnpbrowser/UPnPDeviceFinder.java:61-62 | the dot-separated groups are at least one, and none holds a dot |
| Finder.OctetPattern | app/src/main/java/com/dgmltn/upnpbrowser/UPnPDeviceFinder.java:62 | a group matching one alternative of the group pattern is one to three ASCII digits; `OctetPatternValue` gives the exact set |
| Finder.IsIPv4Address | app/src/main/java/com/dgmltn/upnpbrowser/UPnPDeviceFinder.java:235-237 | the anchored pattern matches: four dot-separated groups each matching the group pattern (no contract; `IPv4AddressIsDottedQuad` and `DottedQuadIsIPv4Address` state both directions) |
| Finder.JoinDotGroups | app/src/main/java/com/dgmltn/upnpbrowser/UPnPDeviceFinder.java:61-62 | joining the groups with dots gives back the text |
| Finder.DotGroupsCons | app/src/main/java/com/dgmltn/upnpbrowser/UPnPDeviceFinder.java:61-62 | a group without a dot, followed by a dot, splits off as one group |
| Finder.DotGroupsSingle | app/src/main/java/com/dgmltn/upnpbrowser/UPnPDeviceFinder.java:61-62 | text without a dot is a single group |
| Finder.IPv4AddressIsDottedQuad | app/src/main/java/com/dgmltn/upnpbrowser/UPnPDeviceFinder.java:235-237 | an accepted text is exactly four dot-joined groups, each of 1-3 digits worth at most 255 |
| Finder.DotGroupsQuad | app/src/main/java/com/dgmltn/upnpbrowser/UPnPDeviceFinder.java:61-62 | four dot-free groups joined by dots split back into exactly those four groups |
| Finder.DottedQuadIsIPv4Address | app/src/main/java/com/dgmltn/upnpbrowser/UPnPDeviceFinder.java:235-237 | any four such groups joined by dots are accepted |
| Finder.ColonIsNotIPv4 | app/src/main/java/com/dgmltn/upnpbrowser/UPnPDeviceFinder.java:61-62 | text containing `:`, as IPv6 text does, is rejected |
| Finder.OctetPatternUpper | app/src/main/java/com/dgmltn/upnpbrowser/UPnPDeviceFinder.java:210-211 | upper-casing a group does not change whether it matches |
| Finder.DotGroupsUpper | app/src/main/java/com/dgmltn/upnpbrowser/UPnPDeviceFinder.java:210-211 | the groups of the upper-cased text are the upper-cased groups |
| Finder.UpperCaseKeepsVerdict | app/src/main/java/com/dgmltn/upnpbrowser/UPnPDeviceFinder.java:210-211 | upper-casing the address text before the test never changes the verdict |
| Finder.Qualifies | app/src/main/java/com/dgmltn/upnpbrowser/UPnPDeviceFinder.java:208-224 | an address qualifies when it is not loopback and the IPv4 test on its upper-cased text agrees with the requested family (no contract; `FirstQualifying` and `GetDeviceLocalIP` are stated through it) |
| Finder.FirstQualifying | app/src/main/java/com/dgmltn/upnpbrowser/UPnPDeviceFinder.java:205-228 | None exactly when no address qualifies; otherwise a qualifying address with no qualifying address before it |
| Finder.FirstQualifyingStep | app/src/main/java/com/dgmltn/upnpbrowser/UPnPDeviceFinder.java:207-226 | a qualifying address ends the scan with itself; a non-qualifying one is skipped |
| Finder.FirstQualifyingAppend | app/src/main/java/com/dgmltn/upnpbrowser/UPnPDeviceFinder.java:205-228 | addresses after a qualifying one do not change the choice |
| Finder.FlattenAppend | app/src/main/java/com/dgmltn/upnpbrowser/UPnPDeviceFinder.java:205-207 | the addresses of two runs of interfaces are those of the first, then those of the second |
| Finder.EarlierInterfaceWins | app/src/main/java/com/dgmltn/upnpbrowser/UPnPDeviceFinder.java:205-228 | a qualifying address on an earlier interface wins over any on a later one |
| Finder.GetDeviceLocalIP | app/src/main/java/com/dgmltn/upnpbrowser/UPnPDeviceFinder.java:202-233 | the nested scan returns the first non-loopback address of the requested family in interface-then-address order, or None when there is none or the interfaces cannot be listed |

## Left out

- Sockets and the receive loop: `UPnPSocket` send, receive and close, and `observe`. These are blocking UDP I/O driven by timeouts and exceptions.
- Event posts and logging: EventBus posts, `UPnPHelper`, the event classes and `Log` calls. They are I/O or UI.
- HTTP and XML in `downloadSpecs`: the OkHttp request and the DOM/XPath evaluation. Their outcome is the `Fetch` input of `Devices.Device.DownloadSpecs`.
- `java.net.URL` parsing and `InetAddress.getByName`: foreign calls, taken as function parameters. The resolver is fixed for the adapter's whole life (the `resolve` constant of `Adapter.DeviceAdapter`): every host resolves to the same answer at every `addItem`, and the sorted-list invariant relies on that.
- `NetworkInterface` enumeration: taken as input data. The `interfaces` argument is None when listing fails.
- UI parts of the adapter: Picasso, the text and image setters, `linkify` and the `notifyItem*` callbacks.
- `toString`, `Serializable`, `getPort`, `getRawUPnP`, `getRawXml`, `getServer`, `getIconUrl`, `getLocation`: plain accessors with no logic. They are the record's fields.
- Characters are Unicode scalar values, not UTF-16 code units. Case mapping covers ASCII letters only, where Java's is locale-sensitive and full Unicode. This matches Java's `toLowerCase()`/`toUpperCase()` on ASCII text only in default locales without special casing rules. Under a Turkish or Azerbaijani default locale, Java lowers `I` to the dotless `ı` (U+0131): a `LOCATION:` header is then stored as `upnp_locatıon`, `parse` finds no `upnp_location` and returns null. The model lowers `I` to `i` and returns a device. The locale is not modelled.
- The byte length of the datagram (`ssdpMsg.getBytes()` with `ssdpMsg.length()`) is not modelled. For the ASCII request the two are equal.
- A `Device` whose location is null cannot be built: only `Devices.Parse` creates records, and it returns null instead. So the location null checks of the comparator never fire.
- Devices.Device.GenerateIconUrl: stores the corrected icon address `Devices.IconUrl`, which writes no port when the location names none. The source writes `":" + getPort()` and so stores `host:-1` in that case; `Devices.IconUrlAsWritten` models that and `Devices.IconUrlAsWrittenNoPort` shows it (see "## Findings").
- Devices.Device.DownloadSpecs: derives the icon address through the same corrected rule, so it differs from the source exactly when the location names no port.
- Ordering.Compare: ports are taken in -1..65535 (the `Port` type of `Devices.Url`), and the port difference is exact. `java.net.URL` accepts any port from -1 up to `Integer.MAX_VALUE`, and the source's `mine.getPort() - hers.getPort()` is 32-bit subtraction: for the ports (2147483647, -1) it wraps to `Integer.MIN_VALUE` both ways round, so the comparator is not antisymmetric there. `Ordering.CompareAntisymmetric`, `Ordering.CompareTransitive` and the port clauses of `Ordering.ResolvedAddressesDecide` and `Ordering.EqualAddressesFallThrough` hold only on this range.
- Ordering.Compare: defined only when both devices are null, or both are present with hosts that both resolve or both fail. On a one-sided null device or a one-sided unresolved host, the source throws NullPointerException.
- Ordering.CompareInetAddresses: requires the two hosts to resolve alike, for the same reason.
- Adapter.DeviceAdapter.AddItem: requires the list to be strictly sorted and every listed device to be comparable with the new one. These are the comparator's domain and the invariant the adapter keeps.
- Adapter.BinarySearch: requires a sorted list, the precondition of `Collections.binarySearch`. The source's `(low + high) >>> 1` is modelled as unbounded `/ 2`. The two agree for every list size Java allows.
- Adapter.DeviceAdapter.GetItem: requires an in-range position. `ArrayList.get` throws IndexOutOfBoundsException otherwise.
- Finder.SocketTimeout: models the IllegalArgumentException of `setSoTimeout` as None. It does not model that this exception escapes the finder's constructor, nor the IOException path that leaves the socket null.

## Findings

| source | as written | input that shows it | evidently intended | confidence | as-written member | corrected member |
|---|---|---|---|---|---|---|
| app/src/main/java/com/dgmltn/upnpbrowser/UPnPDevice.java:253 | the icon address is `protocol://host:` + `getPort()` + `/path`, and `getPort()` is -1 when the location names no port | location `http://192.168.1.5/desc.xml` with icon path `/icon.png` gives `http://192.168.1.5:-1/icon.png` | write no port when the location names none: `http://192.168.1.5/icon.png` | not executed; high | Devices.IconUrlAsWrittenNoPort | Devices.IconUrlPort |
