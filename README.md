# ESP32 captive-portal configuration firmware, modelled in Dafny

The firmware keeps one Wi-Fi configuration record, `WiFiEEPromData`, in
emulated EEPROM. On boot it either brings up its own access point at
172.20.0.1 or joins a network as a station. It serves a small web portal
through which the record is edited. A captive-portal gate sends requests for
foreign host names to the portal's landing page.

This project models the part of the firmware that decides things:

- the record, its validity tag "TK", the checks made before saving, the
  zero-fill and write of the record image, and reading it back (`config.dfy`,
  and the `Device` class in `firmware.dfy`);
- the factory defaults written by the reset handler;
- the configuration form of `/wifisave`: which fields change, the static-IP
  state machine 0/1 → 4 → 2 → 3, the return code and its message
  (`forms.dfy`, `Device.HandleWifiSave`), and the `sip` toggle of `/wifi`;
- the captive-portal gate: `isIp`, `toStringIp` and the redirect condition,
  and the routing table with its captive-portal probe routes (`gate.dfy`,
  `address.dfy`);
- the network list of `/wifi`: signal quality, the in-place exchange sort of
  scan indices by signal strength, the marking of duplicate names with -1 and
  the listing that follows (`scan.dfy`);
- joining a network: the three waiting loops that share one retry counter,
  static addressing and Multicast DNS (`connect.dfy`); starting the soft
  access point; and the boot decision of `setup` (`firmware.dfy`);
- C strings: the fixed-size character arrays, `strncpy`, `strlen` and the
  copies the handlers make (`cstrings.dfy`).

State that the source changes in place is modelled in place. The class
`Firmware.Device` holds the globals `MyWiFiConfig`, `SoftAccOK` and
`ESPHostname`, and the EEPROM is an `array<byte>`. The sort and the
duplicate marking work on an `array<int>` of scan indices. The connection
loops are `while` loops over the status and the shared counter. Each of
these is proved against a specification function; the properties the
firmware relies on are proved as lemmas about those functions.

Everything outside the program is a parameter:

- the k-th answer of `WiFi.waitForConnectResult` is `feed(k)`;
- whether `MDNS.begin` and `WiFi.softAP` succeed are `mdnsOk` and `apStarted`;
- a scan is three sequences indexed by scan index (`rssi`, `ssid`,
  `encrypted`);
- `IPAddress::fromString` is an uninterpreted function `parse`;
- the chip's MAC is a number `mac`.

Strings are sequences of byte-sized characters. Each text field of the
record holds the C string its array contains.

The host name `<HostName>.local` is the device's name in the `.local` domain
of Multicast DNS (section 3 of RFC 6762).

The access point's address is 172.20.0.1 (src/main.cpp:83). The exchange
sort of the network list (src/main.cpp:303-309) is not stable: entries with
the same signal strength come out in no fixed order, so the model promises
a permutation ordered by non-increasing strength and nothing about ties.

`Device.SaveCredentials` and `Device.HandleWifiSave` run the corrected
firmware: the length checks and the copies are the ones the Findings below
describe as evidently intended. The code as written is modelled beside them
(`Config.SaveVerdictAsWritten`, `Forms.ApplyFormAsWritten`,
`Forms.SaveCodeAsWritten`), with lemmas that show where the two differ.
Rows of the Model table that begin with "Corrected" state properties of the
corrected handler and checks, not of the code as written.
`Device.Setup` models the code as written, terminator writes included
(`Config.SetupTerminated`).

## Model

| member | source | states |
|---|---|---|
| CStrings.CStr | src/main.cpp:455-462 | The String read back through `c_str()` is the argument up to its first NUL: a prefix, NUL-free, stopping at a NUL or at the end |
| CStrings.CStrOfNulFree | src/main.cpp:455-462 | An argument without NUL passes through `c_str()` unchanged |
| CStrings.FieldBytes | src/main.cpp:51-64 | A character array of capacity `cap` holds exactly `cap` bytes |
| CStrings.FieldText | src/main.cpp:675-687 | Reading an array as a C string yields a NUL-free prefix of its bytes, ending at a NUL or at the end of the array |
| CStrings.FieldRoundTrip | src/main.cpp:151-152 | Storing a NUL-free text that fits in an array and reading it back yields the text |
| CStrings.CopyField | src/main.cpp:474-491 | The intended copy into an array of capacity `cap` keeps the longest prefix of at most `cap - 1` bytes: the whole text or exactly `cap - 1` bytes |
| CStrings.CopyFieldReadsBack | src/main.cpp:474-491 | The intended copy leaves a terminated array from which that prefix reads back |
| CStrings.Strncpy | src/main.cpp:476 | `strncpy` fills exactly `cap` bytes: the text's first `cap` bytes, then NUL padding, so the array is unterminated when the text has `cap` bytes or more |
| CStrings.CopyAsWritten | src/main.cpp:476-478 | When the as-written copy stays inside the array, the array keeps its size and `strlen` reads the same length as right after `strncpy`: the extra NUL lands after the text |
| CStrings.StrlenIgnoresLaterWrite | src/main.cpp:477-478 | A NUL written after the first NUL leaves `strlen` unchanged |
| CStrings.Strlen | src/main.cpp:477 | `strlen` finds the first NUL and no earlier one; it finds none (a read past the array) exactly when the array holds no NUL |
| CStrings.CopyAsWrittenOutOfBounds | src/main.cpp:476-478 | The `strncpy`/`strlen`/`[len+1]` copy goes outside the array exactly when the text has `cap - 1` or more bytes; shorter texts give the intended copy |
| CStrings.NineteenCharNameOverruns | src/main.cpp:476-478 | A 19-character SSID in the 20-byte name array makes the terminator write land outside the array, although it fits when copied correctly |
| CStrings.TagTerminatorOverruns | src/main.cpp:206-208 | The reset handler's "TK" in the 3-byte tag array makes the terminator write land at index 3, outside the array |
| CStrings.ToCharArray | src/main.cpp:475 | `toCharArray(buf, size)` writes at most `size - 1` characters and a NUL |
| CStrings.StagingOverrunsTemp | src/main.cpp:464-475 | Staging an argument in `char temp[] = ""` fits its one byte only when the argument is empty |
| Address.DigitChar | src/main.cpp:110 | A decimal digit's character is a digit |
| Address.Dec | src/main.cpp:110 | `String(unsigned)` prints at least one digit, only digits, without a leading zero |
| Address.DecRoundTrip | src/main.cpp:110 | Reading the printed digits back gives the number |
| Address.ShiftLittleEndian | src/main.cpp:110 | Shifting the address word right by `8 * i` leaves the word of the octets from `i` on |
| Address.ShiftedOctet | src/main.cpp:110-112 | `(ip >> (8 * i)) & 0xFF` is octet `i` of the address, the first octet being the least significant byte |
| Address.ToStringIp | src/main.cpp:107-114 | `toStringIp` prints the four octets in decimal, in order, joined by dots |
| Address.ApAddressText | src/main.cpp:83 | The access point's own address prints as "172.20.0.1" |
| Gate.IsIp | src/main.cpp:96-104 | `isIp` accepts exactly the texts made only of digits and dots, the empty text included |
| Gate.CaptivePortal | src/main.cpp:181-188 | Redirect exactly when the host is neither an address literal nor `<HostName>.local`, or is "172.20.0.1" |
| Gate.DottedQuadLooksLikeIp | src/main.cpp:96-114 | `isIp(toStringIp(ip))` holds for every address |
| Gate.ApLiteralRedirected | src/main.cpp:182 | "172.20.0.1" is an address literal yet is always redirected |
| Gate.OtherLiteralsPass | src/main.cpp:182 | Every other address literal, the empty host included, is not redirected |
| Gate.LocalNamePasses | src/main.cpp:182 | The device's own `.local` name is not redirected |
| Gate.ForeignNameRedirected | src/main.cpp:182 | Any host with a character other than a digit or a dot is redirected unless it is the device's own `.local` name |
| Gate.ExampleComIsForeign | src/main.cpp:182 | "example.com" is such a host, whatever the device's host name |
| Gate.Route | src/main.cpp:546-583 | The probe paths `/generate_204`, `/favicon.ico` and `/fwlink` reach the landing page only when the captive portal is on; otherwise they fall to the not-found handler |
| Gate.Respond | src/main.cpp:163-188 | The landing page is the answer exactly for the portal handler, or for the root and not-found handlers when the gate redirects |
| Gate.ForeignHostLandsOnPortal | src/main.cpp:222-270 | A request with such a host on a path handled by root, not-found or the portal lands on the portal page |
| Gate.ProbePathsWithoutPortal | src/main.cpp:580-583 | With the portal on, a probe path always lands on the portal; with it off, it gets the gated 404 |
| Config.SaveVerdict | src/main.cpp:131-160 | Corrected: the save code is 1, 2 or 3, never 4; 3 exactly for an access point with an empty name; 2 exactly for an access point with a name that requires a password shorter than 8; 1 otherwise |
| Config.SaveVerdictAsWritten | src/main.cpp:134-145 | The checks as written return 1, 2 or 3, and 2 or 3 only for an access point |
| Config.SizeofChecksNeverReject | src/main.cpp:137-141 | Comparing `sizeof(String)` with 8 and 1 accepts every record once a String object has at least 8 bytes |
| Config.ShortPasswordAccepted | src/main.cpp:137 | A password-protected access point with password "abc" is saved as written but rejected with code 2 by the intended check |
| Config.Hex | src/main.cpp:70 | `String(n, HEX)` has at least one digit and no NUL |
| Config.HexLength | src/main.cpp:70 | A number below 16^k prints in at most k hexadecimal digits |
| Config.EspHostname | src/main.cpp:70 | The chip-derived host name is NUL-free and at most 12 characters, so it fits the host name array |
| Config.FactoryReset | src/main.cpp:191-213 | The defaults carry the tag "TK", keep the static-IP state, and hold the chip host name cut to the 19 characters its array can terminate |
| Config.FactoryResetSaves | src/main.cpp:191-213 | The defaults are an access point "ESP_Config" with password "12345678", password required, captive portal on, the chip host name, tag "TK" and all addresses 0.0.0.0; the static-IP state is unchanged; they pass the save checks and fit |
| Config.Encode | src/main.cpp:152 | The record image is `RecordSize` bytes long |
| Config.Decode | src/main.cpp:675-677 | Any image decodes to a record whose text fields fit their arrays |
| Config.EncodeLayout | src/main.cpp:51-64 | Each field of the record lies at its offset in the image, in declaration order |
| Config.DecodeEncode | src/main.cpp:675-687 | Reading back the image of a fitting record yields the record |
| Config.Load | src/main.cpp:675-687 | `loadCredentials` returns true exactly when the loaded record's tag is "TK"; the record fits |
| Config.LoadAfterSave | src/main.cpp:675-687 | A record saved with the tag loads back valid and unchanged, whatever follows it in storage |
| Config.ZeroImageInvalid | src/main.cpp:675-687 | Erased (all-zero) storage loads as invalid |
| Config.ValidTagBytes | src/main.cpp:681 | Storage is valid exactly when the tag bytes are 'T', 'K', NUL |
| Config.PaddingIsZero | src/main.cpp:476 | Past its text, a character array filled by `strncpy` holds NUL bytes |
| Config.NameTerminatorImage | src/main.cpp:476-478 | The NUL written at `APSTAName[len + 1]` changes nothing for a name under 19 characters; for a 19-character name it lands on `WiFiPwd[0]` and the password reads back empty |
| Config.PasswordTerminatorImage | src/main.cpp:482-484 | The NUL written at `WiFiPwd[len + 1]` changes nothing for a password under 24 characters; for a 24-character password it lands on `HostName[0]` and the host name reads back empty |
| Config.HostNameTerminatorImage | src/main.cpp:488-490 | The NUL written at `HostName[len + 1]` changes nothing for a host name under 19 characters; for a 19-character host name it lands on `StaticIP`, which becomes 0 |
| Config.SetupTerminated | src/main.cpp:707-722 | The writes `setup` makes after loading change only the password and host name: a 19-character name empties the password, a 24-character password under a shorter name empties the host name, anything shorter changes nothing; the record still fits |
| Scan.GetRssiAsQuality | src/main.cpp:117-128 | Quality is within 0..100; 0 at or below -100 dBm, 100 at or above -50 dBm |
| Scan.QualityMonotone | src/main.cpp:117-128 | A stronger signal never shows a lower quality |
| Scan.QualityLinearPart | src/main.cpp:124-125 | -90 dBm gives 20, -75 dBm gives 50; inside the linear part quality grows strictly and is even |
| Scan.Swap | src/main.cpp:306 | `std::swap` exchanges two entries and keeps the multiset |
| Scan.SwapKeepsSettled | src/main.cpp:305-307 | Swapping a stronger later entry into position `i` keeps the sorted prefix and makes `i` dominate up to `j` |
| Scan.SettleNext | src/main.cpp:303-309 | Once position `i` dominates every later entry, the sorted prefix grows by one |
| Scan.PullStrongest | src/main.cpp:304-308 | The inner loop leaves a permutation in which position `i` is at least as strong as every later entry |
| Scan.SortByRssi | src/main.cpp:303-309 | The exchange sort leaves a permutation of the indices with non-increasing RSSI |
| Scan.MarkDuplicates | src/main.cpp:312-321 | Each position is either kept or -1, and it is -1 exactly when an earlier position carries its SSID |
| Scan.FirstPositions | src/main.cpp:312-321 | The first positions of each SSID, increasing, each one unseen before, and every such position among them |
| Scan.Dedup | src/main.cpp:312-321 | The kept indices are no more than the sorted ones |
| Scan.DedupSnoc | src/main.cpp:324-326 | Scanning one more position adds its index exactly when its SSID is new |
| Scan.DedupUnique | src/main.cpp:312-321 | No two kept entries share an SSID |
| Scan.FirstOccurrence | src/main.cpp:312-321 | Every SSID has a first position at or before any position carrying it |
| Scan.DedupKeepsFirst | src/main.cpp:312-321 | Every SSID of the sorted list is kept, at its first position |
| Scan.DedupListsFirsts | src/main.cpp:312-321 | A kept entry lies no later than any position with its SSID |
| Scan.Numbered | src/main.cpp:295-298 | The index array holds 0..n-1 in scan order |
| Scan.ListUnmarked | src/main.cpp:324-343 | The display loop lists exactly the unmarked positions in order, each with its SSID, quality and lock |
| Scan.ScanList | src/main.cpp:288-346 | A scan lists one entry per SSID of the scan, by non-increasing RSSI, each the strongest result with its name, rendered with its quality and lock |
| Scan.EmptyScanListing | src/main.cpp:291-292 | An empty scan lists nothing |
| Scan.ListingIsWell | src/main.cpp:295-343 | Every listing has unique names, non-increasing RSSI, covers every SSID and shows the strongest result of each name |
| Scan.ListingProperties | src/main.cpp:303-321 | Sorting then keeping the first of each SSID gives that listing |
| Scan.ListedInRange | src/main.cpp:312-321 | Kept entries are scan indices |
| Scan.ListedByRssi | src/main.cpp:303-321 | Keeping a subsequence of a sorted list keeps it sorted |
| Scan.ListedCoversScan | src/main.cpp:312-321 | Every SSID of the scan survives the duplicate marking |
| Scan.ListedStrongest | src/main.cpp:303-321 | The kept entry of each SSID is at least as strong as every result with that SSID |
| Connect.Step | src/main.cpp:631-663 | One pass polls once, the status is the one just polled, polls and counter advance together, and `WiFi.begin` is called exactly when the loop reissues |
| Connect.Linked | src/main.cpp:629-645 | After the idle and unreachable-network loops the counter is at most 10, and the status is not 1 unless the counter ran out |
| Connect.Final | src/main.cpp:656-663 | The wrong-password loop only raises the counter, to at most 10, and ends on a status other than 4 unless the counter ran out |
| Connect.Attempt | src/main.cpp:629-669 | mDNS is announced only with auto-reconnect and a successful `MDNS.begin`; the disconnect happens exactly when the result is 4 |
| Connect.Spin | src/main.cpp:626-646 | A waiting loop never lowers the retry counter nor lets it pass 10 |
| Connect.SpinFacts | src/main.cpp:626-646 | Each pass polls once, and calls `WiFi.begin` when it reissues; a loop stops on another status or at 10; the status left is the last one polled |
| Connect.ConnectWifiAP | src/main.cpp:612-672 | The outcome is the specified one for the oracle; static addressing is applied exactly for states 2 and 3, with DNS only for 3 |
| Connect.WaitWhile | src/main.cpp:626-663 | One waiting loop computes what `Spin` specifies |
| Connect.AttemptBounds | src/main.cpp:612-672 | At most 11 polls in all, at least one, no more `WiFi.begin` calls than polls, and the value returned is the last status polled |
| Connect.SpinAccounted | src/main.cpp:626-663 | A waiting loop keeps the count of polls and `WiFi.begin` calls |
| Connect.FinalAccounted | src/main.cpp:612-672 | The count holds after all three loops |
| Connect.OnlyWrongPasswordReissues | src/main.cpp:626-663 | Without a status 4, `WiFi.begin` is called once and there is no disconnect |
| Connect.MdnsOnlyWhenConnected | src/main.cpp:647-669 | mDNS only with auto-reconnect and a successful `MDNS.begin`; auto-reconnect only with final status 3 and a single `WiFi.begin`; a disconnect exactly on final status 4 |
| Connect.SpinExhausts | src/main.cpp:626-663 | A loop fed its own status runs the counter out |
| Connect.PersistentWrongPassword | src/main.cpp:656-669 | A password the network always refuses gives 11 polls, 11 `WiFi.begin` calls and a disconnect |
| Connect.IdleExhaustsBudget | src/main.cpp:626-646 | A radio that stays idle returns 0 after 11 polls and a single `WiFi.begin`, without mDNS or disconnect |
| Connect.WrongPasswordRecoverySkipsMdns | src/main.cpp:647-663 | A connection made inside the wrong-password loop returns 3 without auto-reconnect or mDNS |
| Forms.FormArgs | src/main.cpp:455-462 | Every argument the handler works with is NUL-free |
| Forms.StaticForm | src/main.cpp:492-509 | The static branch ends in state 2, 3 or 4, in 4 exactly when address, gateway or netmask is unacceptable, and changes only the state and the addresses |
| Forms.FormFields | src/main.cpp:467-491 | Corrected: access-point mode exactly when `ap` is "on"; the requirement is never set; only the mode, the requirement, the name, the password and the host name change |
| Forms.ApplyForm | src/main.cpp:467-515 | Corrected: the mode follows `ap`; the portal flag and the tag stay; state 0 stays 0 and any other state stays non-zero |
| Forms.SaveCode | src/main.cpp:516-518 | Corrected: the handler's code is 0, 1, 2 or 3, and 0 exactly when the address settings are invalid (state 4) |
| Forms.SaveMessage | src/main.cpp:519-535 | "EEPROM error" is the message exactly for code 4 |
| Forms.FormModeAndRequirement | src/main.cpp:467-473 | Corrected: access-point mode exactly when `ap` is "on"; the password requirement is never set, and cleared exactly for an access point sent without a password; the other flags and the tag stay |
| Forms.FormNames | src/main.cpp:474-491 | Corrected: the SSID and host name change only for non-empty arguments, and then to the longest prefix that fits with its terminator |
| Forms.FormPassword | src/main.cpp:480-485 | Corrected: a given password is stored truncated; an empty one erases the password when none is required; otherwise it stays |
| Forms.FormStaticIp | src/main.cpp:492-515 | Corrected: from state 0 every address is cleared; otherwise the state becomes 4, 3 or 2 as the address arguments allow; addresses are parsed only when accepted and stay in state 4 |
| Forms.FormKeepsFit | src/main.cpp:455-491 | Corrected: the form keeps every text field within its array |
| Forms.SaveCodeOutcomes | src/main.cpp:492-535 | Corrected: the handler ends with 0, 1, 2 or 3, with 0 exactly when the static-IP settings are rejected, so "EEPROM error" is never shown |
| Forms.StationFormSaves | src/main.cpp:467-518 | Corrected: a station configuration with acceptable address settings is always saved |
| Forms.FormFieldsAsWritten | src/main.cpp:467-491 | The field updates as written, terminator writes included: the mode follows `ap`, and the portal flag, the tag and the addresses stay |
| Forms.ApplyFormAsWritten | src/main.cpp:467-515 | The handler as written, whose static branch tests `StaticIP` after the copies: the mode follows `ap`, the portal flag and the tag stay |
| Forms.SaveCodeAsWritten | src/main.cpp:516-518 | The code as written is 0, 1, 2 or 3, and 0 exactly when the address settings are invalid |
| Forms.FormAsWrittenAgrees | src/main.cpp:474-491 | For arguments that leave a byte to spare in their arrays, the handler as written and the corrected one produce the same record |
| Forms.NineteenCharNameErasesPassword | src/main.cpp:474-485 | A station form with a 19-character name and no password, while a password is required: the corrected handler keeps the stored password, the one as written erases it |
| Forms.NineteenCharHostDropsStaticIp | src/main.cpp:486-515 | A 19-character host name with static addressing on: the corrected handler takes the static branch, the one as written ends in state 0 with every address cleared |
| Forms.ShortApPasswordSavedAsWritten | src/main.cpp:467-518 | An access point "Net" with password "abc" and a required password: refused with code 2 by the corrected handler, saved with code 1 as written |
| Forms.SipToggle | src/main.cpp:274-279 | `sip=true` sets state 1, `sip=false` state 0, anything else keeps it; nothing else changes |
| Forms.SipSteersForm | src/main.cpp:492-515 | Corrected: after `sip=true` the next form ends in state 2, 3 or 4; after `sip=false` it clears the addresses and keeps state 0 |
| Firmware.BootDecision | src/main.cpp:703-742 | Serving needs a valid record; the access point serves only in access-point mode once it started, a station only after status 3; the probe routes follow the record's captive-portal flag |
| Firmware.UnsavedStorageResets | src/main.cpp:703-742 | Storage without the tag bytes always boots into a reset |
| Firmware.ResetBootsPortal | src/main.cpp:703-715 | After a reset the next boot serves the access point with the probe routes, unless it fails to start |
| Firmware.ResetAccessPoint | src/main.cpp:587-597 | The access point that boot brings up after a reset is "ESP_Config" with the passphrase "12345678", not open |
| Firmware.NineteenCharNameBootsOpenAp | src/main.cpp:707-713 | A stored access-point record with a 19-character name boots with an empty passphrase, an open access point, although it requires a password |
| Firmware.StationBoot | src/main.cpp:716-742 | A saved station record boots into serving exactly when the connection ends with status 3 |
| Firmware.Device.constructor | src/main.cpp:51-64 | Power-on state: member defaults, the chip host name, `SoftAccOK` false and the stored bytes |
| Firmware.Device.SaveCredentials | src/main.cpp:131-160 | Corrected checks: the return code is the length-based save verdict; on 1 the tag is "TK", the record region was zeroed and then holds the record's image, the rest of storage unchanged; otherwise nothing changes |
| Firmware.Device.Put | src/main.cpp:152 | `EEPROM.put` writes the image over the start of storage and leaves the rest |
| Firmware.Device.LoadCredentials | src/main.cpp:675-687 | The record and the validity flag are those `Load` gives for the stored bytes |
| Firmware.Device.HandleReset | src/main.cpp:191-219 | The record becomes the factory defaults, is saved, the page is "Success! Reboot in 2s." and the device restarts |
| Firmware.Device.HandleWifiSave | src/main.cpp:454-542 | Corrected copies and checks: the record becomes the form's; it is saved exactly when the address settings are accepted; the page is the code's message; restart exactly on code 1 |
| Firmware.Device.ApplyArgs | src/main.cpp:467-515 | Corrected: the record after the field updates is the form's specified record |
| Firmware.Device.ApplyFieldArgs | src/main.cpp:467-491 | Corrected: the mode, requirement, name, password and host name updates |
| Firmware.Device.ApplyAddressArgs | src/main.cpp:492-509 | The static-IP branch gives the specified state and addresses |
| Firmware.Device.HandleWifi | src/main.cpp:273-346 | The `sip` toggle applies; with a scan the page lists every SSID once, and no more entries than results |
| Firmware.Device.CreateWifiSoftAP | src/main.cpp:587-610 | The access point uses the record's name, its password only when one is required, 172.20.0.1/24; DNS redirection and `SoftAccOK` exactly when it started; once started it is the record's access point |
| Firmware.Device.Setup | src/main.cpp:689-743 | The boot follows the boot decision for the stored bytes; serving keeps storage and the loaded record after the terminator writes; otherwise the defaults are saved; the DHCP name is the one held before loading; an access-point boot reports the access point of the record after the terminator writes; a reset leaves `SoftAccOK` false |
| Firmware.FactoryResetFits | src/main.cpp:191-213 | The defaults fit, pass the save checks and carry the tag, whatever the host name |
| Firmware.ListedCount | src/main.cpp:288-346 | A listing names every SSID of the scan and has at most as many entries as results |

## Left out

- HTML page assembly (`handleCP`, the page text of `handleRoot`, the form of `handleWifi`, the text of `handleNotFound`) is not modelled: it only builds pages. The model records which page is answered (`Gate.Reply`).
- The firmware upload (`handleUpdate`, the `/upgrade` handlers) is left out: it wraps the `Update` library. Only its route is modelled.
- The radio, DNS, mDNS and web-server libraries are not modelled. Their answers are oracles (`feed`, `mdnsOk`, `apStarted`, the scan sequences), and their effects are recorded as flags (`SoftAp.dnsRedirect`, `Outcome.autoReconnect`, `Outcome.mdnsService`, `Outcome.disconnected`).
- `delay`, `ESP.restart`, Serial output and the brown-out register write are left out. A restart is the flag `restart` or the `ResetAndRestart` boot; the next boot is a new `Device` over the same bytes.
- `IPAddress::fromString` is the uninterpreted function `parse`. Its parsing and its failure result are not modelled.
- The in-memory layout of `WiFiEEPromData` is not modelled. The image is the fields in declaration order without padding, each address 4 bytes (88 bytes). `EEPROM.put` and `EEPROM.get` copy it.
- The result of `EEPROM.commit` is ignored by the source and is not modelled. `EEPROM.begin`/`end` are not modelled.
- The `loop` pump is left out. It services DNS only while `SoftAccOK`, which `Device.softAccOk` records.
- Firmware.Device.Setup: the terminator writes after loading (src/main.cpp:710-713, 719-722) are modelled by `Config.SetupTerminated`. A 19-character name clears `WiFiPwd[0]`, so the access point is started with an empty passphrase, which the ESP32 core opens (`Firmware.NineteenCharNameBootsOpenAp`), or the station joins with an empty password; a 24-character password clears `HostName[0]`. A stored name of 20 bytes or password of 25 bytes has no terminator, and `strlen` then reads into the next field; the model leaves such a record as it is.
- Firmware.Device.SaveCredentials: applies the corrected length checks (`Config.SaveVerdict`), not the `sizeof` checks as written, which accept every record (Findings row 1). The code as written is `Config.SaveVerdictAsWritten`.
- Firmware.Device.HandleWifiSave: applies the corrected copies and checks (`Forms.ApplyForm`, `Forms.SaveCode`). As written, staging through the 1-byte `temp` overruns it (Findings row 2), a 19-character name or host name or a 24-character password clears the next field (row 3), and the `sizeof` checks accept every record (row 1). `Forms.ApplyFormAsWritten` and `Forms.SaveCodeAsWritten` model that code, and the lemmas beside them show where it differs.
- Forms.FormFieldsAsWritten: defined only for arguments shorter than their arrays. Longer ones leave the array unterminated and `strlen` reads past it, which the model does not follow. Staging through `temp` is taken as a direct copy.
- Scan.SortByRssi: the contract does not fix the order of entries with equal RSSI, since the exchange sort does not keep scan order.
- `WiFi.SSID` of an index outside the scan is modelled as the empty String (`Scan.SsidAt`).
- The display loop's `-1 < quality` test is kept, but it always holds, since quality is never negative.
- A connection reached inside the wrong-password loop (status 4, then 3) returns 3 but skips auto-reconnect and mDNS, because that check runs before the loop (`Connect.WrongPasswordRecoverySkipsMdns`). The model keeps this behaviour.
- Firmware.Device.HandleWifi: `WiFi.scanNetworks` returns -1 or -2 when a scan is still running or has failed, and the source then declares `int indices[n]` with a negative size (src/main.cpp:289-295), which C++ leaves undefined. The scan is modelled as three sequences, so it always has zero or more results and a failed scan is not modelled.
- `WiFi.setHostname` in `setup` runs before the record is loaded, so it receives the member-default host name (`Device.Setup`'s `dhcpName`).

## Findings

| source | as written | input that shows it | evidently intended | confidence | as-written member | corrected member |
|---|---|---|---|---|---|---|
| src/main.cpp:137-141 | The password and name checks compare `sizeof(String(...))`, the size of a String object, with 8 and 1, so they never reject | An access point requiring a password, with password "abc" | Compare the text lengths: reject passwords shorter than 8 and empty names | not executed | Config.ShortPasswordAccepted | Config.SaveVerdict |
| src/main.cpp:464-490 | Each argument is staged with `toCharArray(temp, len + 1)` in `char temp[] = ""`, a 1-byte array | Any non-empty SSID, password or host name | Copy the argument straight into the record's array | not executed | CStrings.StagingOverrunsTemp | CStrings.CopyField |
| src/main.cpp:476-490 | After `strncpy(field, src, cap)` (here, in the reset handler and in `setup`), `field[strlen(field) + 1] = '\0'` writes outside the array when the text has `cap - 1` bytes; inside the record that is the first byte of the next field. A 19-character SSID clears the password, a 24-character password clears the host name, a 19-character host name clears `StaticIP`. At `cap` bytes or more the array is unterminated and `strlen` reads past it | A 19-character SSID in the 20-byte name with no password given (the stored password is erased); a 19-character host name with static addressing on (the addresses are dropped); "TK" in the 3-byte tag | Keep at most `cap - 1` bytes and terminate inside the array | not executed | Forms.NineteenCharNameErasesPassword | CStrings.CopyFieldReadsBack |
