# Aktualizr-nano: a verified model

Aktualizr-nano is an over-the-air update client for microcontrollers. It polls a device gateway,
selects the highest version meant for the device, downloads it into the slot that is not running,
lets the bootloader try it, and makes it permanent after a successful check-in; an image that never
checks in is rolled back. This project models that client and proves what its design relies on:

- the update protocol over whole runs with a reset between any two steps (`Protocol`,
  `ProtocolSafety`, `ProtocolDecisions`), and the sample loop itself, step by step a run of that protocol (`Client`,
  `ClientSafety`);
- the NOR flash writer (`NorFlash`), the storage laid out on it (`Layout`, `Stores`), the settings page
  (`SettingsPage`) and the TUF role files (`TufStore`);
- the image download (`Download`), the selection of the target (`TargetsManifest`), the conversion of
  identifiers to decimal (`UidDecimal`), to hexadecimal and to UUIDs (`HexCodec`), and the unescaping
  of the device's configuration (`JsonText`).

`Bytes` holds the machine integers, words and C strings they share. Check everything with
`dafny verify dfyconfig.toml`.

## How it is modelled

- Code that updates state in place is a class or a method with a loop, proved against functions of the
  old and new state: `Flash` (the cells), `Client` (`struct aknano_settings` and the bootloader state),
  `Context` (the selection), `NetworkContext` (the connection), and the digit arrays.
- The theorems about runs are lemmas about the transition system `Protocol.Next`. `Client.Valid` says
  that the steps taken so far are a run of it from a fresh boot that ends in the client's current state,
  and every method of `Client` keeps it; `ClientSafety` draws the conclusions for the client.
- `Client` is where the parts meet: its check-in stores role files and selects the manifest's target,
  and its install downloads into a slot of the same flash that holds the settings page.
- The environment is nondeterministic: the outcome of the check-in (connection and TUF refresh) with
  the role files and the manifest it brings, the replies to a download, marking the image, the clock,
  the random identifier, the running position and the moment of a reset are inputs. The server is any
  sequence of replies.
- Flash: erasing sets a sector to 0xFF and programming ANDs a page into the cells. An operation that
  fails leaves anything in the sector or page it was on, and one at an address that is not aligned may
  do anything there. `working` names a driver whose aligned operations succeed.
- Machine arithmetic is written out where it can wrap: the 32-bit sums of the decimal conversion, the
  32-bit difference of sizes in the download loop, the retry count.

## Assumptions

- The bootloader runs an image marked ready for test after the next reset, and goes back to the
  permanent one at the reset after that unless the running image was made permanent. The running
  image's build number is the version the manifest gave it. UINT_MAX stands for an unknown build number
  and is not offered by a manifest.
- In the protocol model, marking an image permanent succeeds and a settings write is atomic.
- The application declares its self test passed, as the sample loop does.
- Slots start on a sector, are at least 0x100000 bytes apart and do not overlap the storage (their
  addresses come from the board's configuration, not part of this model).
- In `Client` the flash driver works; its failures are covered in `NorFlash`, `Layout`, `TufStore`,
  `Stores` and `Download`.
- SHA-256 and the bootloader's check of the image are parameters, functions of the bytes they are given.
- `time_t` has 32 bits in the settings page. The order of bytes in a word is little-endian. Whether
  `char` is signed is a parameter where it matters.
- `NULL` as the loop's bound means any number of iterations: the theorems hold for every number.

## Where the code differs from what one might expect

- **A failed version can be installed again.** An update's version is on record in flash so that it is
  not tried again after a roll-back, until another version's install replaces the record: by saving
  its own, or by becoming permanent, as an older version, after a reset kept it from saving. That
  fails in exactly two cases (`NotRetriedIff`): the version
  exceeds 999999999, or the image that recorded it was not confirmed. The second case is reachable from
  a device as provisioning leaves it (`SomeRecordedVersionIsRetried`): a reset between marking the new image and saving
  the settings, while an older record and a correlation id are in flash, boots an image that believes
  it was rolled back to, is made permanent, and never counts as confirmed. `RecordedVersionsNotRetried`
  shows that, for the smaller versions, this reset is the only cause.
- **The retry count does not survive a reset.** The writer puts it at byte 110 of the page, behind the
  102-byte correlation id, and the reader looks at byte 108 (`RetryCountAfterReload`).
- **A role file that fills its last sector can read back wrong**, because nothing marks its end
  (`FileRoundTripIff`, `FullSectorFileReadsBackWrong`); the same goes for the root installed from the
  provisioned one (`FallBackInstallsRoot`).
- A role without a file has the offset -1, which the writer is not kept from using: such a write may
  change the sector before the storage and the device's identity (`UnknownRoleReachesIdentity`).
- A hardware id or tag of the manifest matches if it is a prefix of the device's, and only the first
  ten are looked at (`MatchIsPrefix`, `FindMatch`).
- A server that sends a reply of a length that is not a multiple of 4096 anywhere but at the end makes
  the next write unaligned; `DownloadImage` then only promises the bodies' size and hash and that nothing
  but the target slot changed.

## Model

| member | source | states |
|---|---|---|
| ProtocolSafety.InvStep | src/aknano_api.c:317-367 | the inductive invariant is kept by every step of the protocol: a trial image is always newer than the fallback, a permanent or reporting client never runs a trial image, an image is pending exactly when only a reset is left |
| ProtocolSafety.InvRun | src/aknano_api.c:424-520 | so it holds after every run, with resets anywhere |
| ProtocolSafety.FreshInv | src/aknano.c:254-318 | it holds on a device that just booted a permanent image |
| ProtocolSafety.FallbackStep | src/platform/mcuxsdk/aknano_flash_storage.c:164-173 | one step changes the fallback image only by confirming the running one, and never to an older version |
| ProtocolSafety.FallbackNeverDecreases | src/aknano_api.c:269-280 | over any run the version a reset can fall back to never decreases |
| ProtocolSafety.PermanentOnlyAfterCheckIn | src/aknano_api.c:275-279 | an image that became permanent during a run was running, checked in successfully and was confirmed right after that |
| ProtocolSafety.RecordIsKept | src/aknano_api.c:356-365 | saving the settings of an install by a confirmed image puts the record in flash of a version up to 999999999 out of danger |
| ProtocolSafety.KeptStep | src/aknano_api.c:465-492 | every step keeps the record in flash unless it saves another version over it or makes an older image permanent; a download of another version that a reset cuts off before the save does not endanger it; and no step starts installing the recorded version |
| ProtocolSafety.KeptRun | src/aknano_api.c:465-492 | over any run, with resets anywhere, without such an overwriting step the recorded version is not installed |
| ProtocolSafety.NotRetriedIff | src/aknano_api.c:338-365 | exactly when a version on record in flash is never installed again before another version's install replaces that record: when the recording image was confirmed and the version does not exceed 999999999 |
| ProtocolSafety.LargeVersionRetried | src/aknano.c:83-84 | a larger version is forgotten by the reset and tried again |
| ProtocolSafety.UnconfirmedVersionRetried | src/aknano.c:164-178 | on an image that was never confirmed a version is tried again after two more boots |
| ProtocolSafety.GoodStep | src/aknano.c:136-178 | every step but a harmful reset keeps a state in which the roll-back flag is only raised on a confirmed image |
| ProtocolSafety.RecordedVersionsNotRetried | src/aknano_api.c:269-280 | from a device without a record, over any run without harmful resets, no recorded version up to 999999999 is installed again |
| ProtocolSafety.ThirdVersionBootsUnrecorded | src/aknano_api.c:345-365 | a run from a device as provisioning leaves it in which version 3 boots with only version 2 on record, looking like an image rolled back to |
| ProtocolSafety.SomeRecordedVersionIsRetried | src/aknano.c:136-138 | a run from such a device that ends with a record of version 4 that does not keep it from being tried again |
| ProtocolDecisions.UpdateRequiredIff | src/aknano_api.c:465-485 | in every reachable state a selected version is installed exactly if it is above the running one and not the one on record as applied |
| ProtocolDecisions.UnknownVersionIsZero | src/aknano.c:62-64 | a device of unknown build number counts as version 0, so it takes every version but the one on record |
| ProtocolDecisions.WhatABootKnows | src/aknano.c:136-138 | after a boot: settings as stored, version as built, nothing reported yet, permanent exactly off trial with a readable state, rolled back exactly if another version is on record with an identifier |
| ProtocolDecisions.CheckInMakesPermanent | src/aknano_api.c:275-279 | a successful check-in leaves the running image permanent, to the bootloader and to the client |
| ProtocolDecisions.RollBackIsReported | src/aknano.c:161-178 | a roll-back is reported on any image, confirmed or not: record kept, identifier cleared in RAM and flash, and no later boot looks rolled back on its account |
| ProtocolDecisions.NewImageIsReported | src/aknano.c:167-178 | an unconfirmed image is confirmed in RAM and flash; record, identifier and tries are cleared |
| ProtocolDecisions.NothingElseIsReported | src/aknano.c:153-162 | otherwise, and later in the same boot, the check-in writes no settings |
| ProtocolDecisions.UpdateSucceeds | src/aknano_api.c:317-367 | an installed version boots on trial, is not taken for a roll-back, and after its first check-in is permanent and confirmed with nothing left on record |
| ProtocolDecisions.NewIdentifier | src/aknano_api.c:323-325 | an install's identifier is the generated one, in RAM and after every reset, and the rest of its buffer is untouched |
| ProtocolDecisions.TryIsCounted | src/aknano_api.c:356-363 | a try is counted and the retry time set exactly if the image was marked |
| Client.Client.constructor | src/aknano.c:254-318 | the client begins as a freshly booted device of the protocol, decoded from the flash it is given |
| Client.Client.InitSettings | src/aknano.c:43-145 | the RAM state after boot is the function of page and bootloader state that the protocol uses, decoded from real flash reads |
| Client.Client.Reboot | src/aknano.c:254-318 | a reset at any moment is the protocol's Reset step |
| Client.Client.SetImageConfirmed | src/platform/mcuxsdk/aknano_flash_storage.c:164-173 | takes exactly the ConfirmImage step |
| Client.Client.SendInstallationFinishedEvent | src/aknano.c:148-181 | takes exactly the ReportInstall step, once per boot, writing the settings page only if something is to be reported; an identifier made up for the event does not last |
| Client.Client.SendInstallationResult | src/aknano.c:164-178 | saves exactly the settings the protocol prescribes: a roll-back keeps the record of the failed version, a new image clears it and becomes the confirmed one; the identifier made up for the event is gone |
| Client.Client.ConfirmAndReport | src/aknano_api.c:275-279 | a successful check-in confirms the image and then reports, exactly as the protocol does |
| Client.Client.CheckIn | src/aknano_api.c:173-290 | a success selects the manifest's target, confirms and reports, in that order; a failure leaves the state and the settings as they are; either way the role files of the refresh are stored on the same flash, and nothing outside the update state, the role files and the target slot changes |
| Client.Client.RefreshMetadata | src/aknano_api.c:262-267 | the last file of each role is stored in its region, followed by erased cells; only the role regions change |
| Client.Client.SelectTarget | src/aknano_api.c:269-273 | the target selected is the manifest's choice for the device, none if the manifest cannot be used |
| Client.Client.FillEventPayload | src/aknano_device_gateway.c:115-116 | an event never goes out without a correlation id: one is made up exactly where there is none, and nothing else changes |
| Client.Client.FetchUpdate | src/aknano_image_download.c:191-220 | the download writes nowhere but in the slot that is not running; success leaves the selected target there, of the expected size and hash and accepted by the bootloader; from a server that honours ranges the hash and the bootloader decide |
| Client.Client.SetImageReadyForTest | src/aknano_api.c:343-363 | marks the image pending and counts the try, only if the bootloader accepted |
| Client.Client.InstallSelectedTarget | src/aknano_api.c:317-367 | exactly the steps of an install; a reboot is required if and only if download and marking succeeded, and then the slot has the selected target, after the settings were saved; from a server that honours ranges hash and bootloader decide the download |
| Client.Client.HandleSelection | src/aknano_api.c:456-498 | starts an install exactly for a version above the running one that is not on record as applied; then the download's result is the one the replies call for and a reboot follows exactly a successful download and mark |
| Client.Client.Iterate | src/aknano_api.c:440-501 | one iteration extends the run by the steps that its inputs decide: on the manifest's target, with the download's result that the replies call for |
| Client.Client.SampleLoop | src/aknano_api.c:424-520 | every iteration takes the steps its inputs decide, on the manifest's target and with the download's result the replies call for (open only for complete data in unaligned pieces); the loop stops early exactly for an installed update, then held by the slot, or the watchdog, which fires only offline on a temporary image at the first overdue iteration; over the whole loop the device's identity, the provisioned root and the running slot stay as they are |
| Client.Client.RunIteration | src/aknano_api.c:440-510 | after an iteration the loop goes on, or stops for an installed update, or for the watchdog, in the first iteration in which it has to |
| Client.WatchdogMeans | src/aknano_api.c:503-510 | the watchdog ends the loop only on a temporary image, with every check-in failed, and in the first iteration that ends more than 180 seconds after the start; so never on a permanent image |
| Client.NoWatchdogMeans | src/aknano_api.c:503-510 | on a temporary image no iteration more than 180 seconds after the start goes by without it, while every check-in failed |
| Client.WithinBoundsPreserves | src/platform/mcuxsdk/aknano_flash_storage.c:175-183 | writes to the update state, the role files and the target slot leave the identity, the provisioned root and the running slot as they are |
| Client.LimitSleepTime | src/aknano_api.c:413-422 | the delay is the time between 5 seconds and an hour that is nearest to the polling interval |
| Client.ClockAfter | src/aknano_api.c:512-518 | whatever the polling interval, iteration i ends at least 5 i seconds after the start |
| Client.OfflineTrialEnds | src/aknano_api.c:503-510 | offline on a temporary image the loop asks for a reboot, by its 38th iteration, through the watchdog, in the first iteration that is overdue, having taken only the steps of failed check-ins |
| Client.OfflineEnding | src/aknano_api.c:503-518 | with a clock that each delay advances no other end of the loop is possible then, and none after the 38th iteration |
| ClientSafety.ClientKeepsInvariant | src/aknano_api.c:424-520 | the client's state satisfies the invariant at every moment, and the version a reset falls back to is never lower than at the start |
| ClientSafety.ClientConfirmsAfterCheckIn | src/aknano_api.c:275-279 | an image that became permanent since the start had run, checked in and been confirmed right after that |
| ClientSafety.ClientNotRetriedIff | src/aknano_api.c:338-365 | the client about to record a version will not try it again exactly if the running image was confirmed and the version does not exceed 999999999 |
| ClientSafety.DownloadSparesFallback | src/aknano_image_download.c:101-141 | while an update is downloaded the running image is the one a reset falls back to, and its slot is left alone |
| NorFlash.WriteDataToFlash | src/platform/mcuxsdk/aknano_flash_storage.c:42-92 | terminates; whatever fails, only the data's sectors change; a success at an aligned offset leaves exactly the data, then 0xFF to the end of its last sector, whatever was there; a working driver succeeds |
| NorFlash.WriteChunk | src/platform/mcuxsdk/aknano_flash_storage.c:62-88 | one pass changes only the sector of its page, and keeps the cells up to the next erase address the data so far and erased cells |
| NorFlash.ProgramChunk | src/platform/mcuxsdk/aknano_flash_storage.c:74-84 | programming erased cells stores the chunk and leaves the rest of the page erased |
| NorFlash.EraseOnReaching | src/platform/mcuxsdk/aknano_flash_storage.c:63-72 | a sector is erased on reaching it and not before |
| NorFlash.FrameStep | src/platform/mcuxsdk/aknano_flash_storage.c:52-89 | a change within the sector of an address of the data stays within the data's sectors |
| NorFlash.StoredOnlyTouchesItsSectors | src/platform/mcuxsdk/aknano_flash_storage.c:52-91 | a complete write differs from the old contents only in the data's sectors, so that successful and failed writes share one frame |
| NorFlash.StoredErasesTheRest | src/platform/mcuxsdk/aknano_flash_storage.c:74-76 | behind the data its last sector reads 0xFF |
| Layout.RegionsPartitionStorage | src/aknano.h:51-79 | the seven regions consist of whole sectors and partition the 22 sectors: every address in them belongs to exactly one region |
| Layout.RegionAddresses | src/aknano.h:51-79 | the address of each region and the end of the storage |
| Layout.ReadFlashStorage | src/platform/mcuxsdk/aknano_flash_storage.c:30-39 | only whole words are read; the last bytes of the output stay as they were |
| Layout.WriteDataToStorage | src/platform/mcuxsdk/aknano_flash_storage.c:94-97 | the guarantees of the writer, relative to the storage |
| Layout.StoredReadsBack | src/platform/mcuxsdk/aknano_flash_storage.c:42-92 | what a write stored is what a read finds |
| SettingsPage.UpdateSettingsInFlash | src/platform/mcuxsdk/aknano_flash_storage.c:99-132 | the state sector then holds the packed page and nothing else changed |
| SettingsPage.PackSettings | src/platform/mcuxsdk/aknano_flash_storage.c:101-123 | the buffer is the fields one after the other, the whole 102-byte identifier included, then zeros |
| SettingsPage.PageLayout | src/platform/mcuxsdk/aknano_flash_storage.c:104-123 | where each field is in the page: the identifier at byte 8, the retry count at 110 and its time at 114, zeros from 118 |
| SettingsPage.LoadSettings | src/aknano.c:80-115 | the fields read at boot are the decoding of the stored page |
| SettingsPage.DecodeAfterPage | src/aknano.c:80-115 | decoding a packed page, for every settings record, overlapping fields included |
| SettingsPage.VersionsSurvive | src/aknano.c:83-90 | a version survives if and only if it does not exceed 999999999 |
| SettingsPage.CorrelationIdSurvives | src/aknano.c:94-98 | the identifier survives as a string if and only if it has at most 100 characters and does not start above 'z' |
| SettingsPage.RetryCountAfterReload | src/aknano.c:103-107 | the retry count reads back as 65536 times its low half, or 0 where that is no positive int; only 0 survives |
| SettingsPage.RetryTimeAfterReload | src/aknano.c:111-115 | the retry time reads back with its low half in the high one and the high half of the count below it, or 0 if that looks erased |
| SettingsPage.TwosComplement | src/aknano_api.c:358 | the retry count is a 32-bit int that wraps |
| SettingsPage.ErasedPageDecodesToDefaults | src/aknano.c:80-115 | an erased page decodes to a device that never updated |
| TufStore.ReadLocalJsonFile | src/aknano_tuf_client.c:34-55 | finds the text up to the first zero or erased byte behind an opening brace, and terminates it |
| TufStore.CutAtFirstEnd | src/aknano_tuf_client.c:45-53 | zeroing the first erased and the last byte makes the C string that text |
| TufStore.WriteLocalFile | src/aknano_tuf_client.c:87-102 | stores the file in its role's region; whatever fails, only the sectors of the data at the role's offset change |
| TufStore.RoleFileStays | src/aknano.h:72-79 | a file of at most 16384 bytes stays among the role regions |
| TufStore.UnknownRoleReachesIdentity | src/aknano_tuf_client.c:23-32 | at the offset of a role without a file, -1, the sectors of a write are the one before the storage and, exactly for more than one byte, the device's identity |
| TufStore.ReadLocalFile | src/aknano_tuf_client.c:57-85 | the outcome and the flash afterwards are those of the specification of reading a role, fall-back included; only the root's fall-back writes |
| TufStore.OnlyRootFallsBack | src/aknano_tuf_client.c:57-80 | a role's own file is read if its region begins with a brace; failing that only the root reads the provisioned one; every other read fails |
| TufStore.FileRoundTripIff | src/aknano_tuf_client.c:34-55 | a written file reads back the same if and only if it starts with a brace, has no zero or erased byte, fits the buffer, and does not fill its last sector (or is ended by chance) |
| TufStore.FullSectorFileReadsBackWrong | src/aknano_tuf_client.c:45-53 | a file of one sector written over a longer one reads back longer than it is |
| TufStore.FallBackInstallsRoot | src/aknano_tuf_client.c:70-76 | after the fall-back a second read finds the same root in its own slot and writes nothing, exactly if it does not fill its last sector (or is ended by chance) |
| Stores.OtherRegionsUntouched | src/aknano.h:51-79 | a write to a region, failed or not, leaves every other region as it was |
| Stores.RolesApart | src/aknano_tuf_client.c:23-32 | storing a file for one role leaves what is read for every other |
| Stores.LastWriteStands | src/aknano_tuf_client.c:87-102 | after any sequence of writes a region whose last write succeeded holds what that write left |
| Stores.WriteRegion | src/platform/mcuxsdk/aknano_flash_storage.c:94-97 | a write at the start of a region has one of the outcomes those histories are made of: stored completely, or a change within the sectors of the data |
| Stores.SettingsSurviveFileWrites | src/platform/mcuxsdk/aknano_flash_storage.c:99-132 | the settings decode to those saved last, whatever files were written since |
| Stores.FileSurvivesOtherWrites | src/aknano_tuf_client.c:57-85 | a readable role file that does not fill its last sector reads back after any writes for other roles, of the settings, the identity or the provisioned root |
| Stores.ClearProvisionedData | src/platform/mcuxsdk/aknano_flash_storage.c:237-245 | erases the whole storage and nothing else |
| Stores.SaveUuidAndSerial | src/platform/mcuxsdk/aknano_flash_storage.c:247-256 | leaves the identity page and otherwise erased storage |
| Stores.ProvisioningForgets | src/aknano_tuf_client.c:57-80 | after provisioning every role read fails, the root's fall-back included, and every field of the update state decodes to its default |
| Stores.LoadIdentity | src/aknano.c:68-78 | the identity as the next boot reads it |
| Stores.IdentitySurvives | src/aknano.c:68-78 | UUID and serial are at bytes 0 and 128 of the storage, and survive provisioning exactly if they start like ASCII text (where char is signed) and the serial has at most 48 characters |
| Download.HandleReceivedData | src/aknano_image_download.c:59-77 | refuses data that reaches the size limit; otherwise the slot's first bytes are extended by the data, and only the slot changes |
| Download.FetchImage | src/aknano_image_download.c:103-174 | terminates for every sequence of replies; the requests are those the replies call for; reaching the expected size means good replies that add up to it, hashed and stored |
| Download.DownloadImage | src/aknano_image_download.c:80-189 | success means 206 replies of exactly the expected size and hash and an accepted image; with whole-sector replies the slot holds exactly the bodies; ideal replies are all asked for and stored, and hash and check alone decide; only the target slot changes |
| Download.AcceptedMeans | src/aknano_image_download.c:139-187 | of an accepted image: every reply succeeded with status 206 and a body, sizes and hash agree, the size is below 0x100000, and the bootloader accepted the slot |
| Download.CompleteIff | src/aknano_image_download.c:117-163 | exactly which replies make a download go through: status 206, no empty body, multiples of 4096 bytes but for the last, and the expected size in all |
| Download.RepliesTile | src/aknano_image_download.c:117-163 | the replies of a server that honours ranges tile the image without gap or overlap |
| Download.RequestedRanges | src/aknano_image_download.c:103-159 | the ranges asked for are the image's 16384-byte pieces; the last is cut to the image, except when it is also the first |
| Download.RangeServerIsIdeal | src/aknano_image_download.c:117-163 | such a server's replies make the download go through, and are the image |
| Download.DownloadAndFlashImage | src/aknano_image_download.c:191-220 | from such a server the image is asked for in exactly ceil(size/16384) requests and stored, and accepted if and only if hash and check are right; the running slot never changes |
| Download.RunningSlotUntouched | src/platform/mcuxsdk/aknano_flash_storage.c:175-183 | a change confined to the target slot leaves the running slot as it is, for both positions |
| Download.TargetSlots | src/platform/mcuxsdk/aknano_flash_storage.c:175-183 | position 2 updates the first slot, every other position the second |
| UidDecimal.PrintUidInteger | src/platform/mcuxsdk/aknano_el2go.c:217-270 | prints the canonical decimal numeral of the hexadecimal string modulo 10^44; for at most 36 characters that of the string itself, with a final carry of 0; for the text of at most 18 bytes that of the number they are |
| UidDecimal.HexNumberOfText | src/platform/mcuxsdk/aknano_el2go.c:237-245 | the hexadecimal text of bytes denotes their number, most significant byte first |
| UidDecimal.HexNumberOfUpper | src/platform/mcuxsdk/aknano_el2go.c:238-243 | lower-case digits denote the same number |
| UidDecimal.HexNumberOfNonDigits | src/platform/mcuxsdk/aknano_el2go.c:236-243 | any other character counts as the digit 0 |
| UidDecimal.DecimalDenotes | src/platform/mcuxsdk/aknano_el2go.c:255-269 | the numeral is made of decimal digits, has no leading zero and denotes the number |
| UidDecimal.AddCharacter | src/platform/mcuxsdk/aknano_el2go.c:233-253 | one pass: the weights denote the next power of 16 and the sums the value of one more character, modulo 10^44, without overflow |
| UidDecimal.MultiplyBySixteen | src/platform/mcuxsdk/aknano_el2go.c:247-252 | multiplies the number the weights denote by 16, each weight staying a digit and the carry at most 15 |
| UidDecimal.AddContribution | src/platform/mcuxsdk/aknano_el2go.c:234-246 | adds a multiple of each weight to its sum, in 32-bit arithmetic |
| UidDecimal.WriteDigits | src/platform/mcuxsdk/aknano_el2go.c:255-262 | the digits written denote the sums, up to the last carry |
| UidDecimal.SkipZeros | src/platform/mcuxsdk/aknano_el2go.c:264-269 | what is left without leading zeros is the canonical numeral, empty for zero |
| UidDecimal.DigitsAreRemainder | src/platform/mcuxsdk/aknano_el2go.c:255-262 | 44 digits that denote a value up to multiples of 10^44 are its remainder |
| UidDecimal.ExactUpToThirtySix | src/platform/mcuxsdk/aknano_el2go.c:255-262 | for at most 36 characters nothing is carried out of the last digit and no multiple of 10^44 was lost |
| UidDecimal.ThirtySixDigitsFit | src/platform/mcuxsdk/aknano_el2go.c:220-221 | 36 hexadecimal digits fit in 44 decimal ones |
| HexCodec.Btox | src/aknano_device_gateway.c:47-52 | writes the first n hexadecimal digits of the bytes and nothing else |
| HexCodec.HexToBin | src/aknano_targets_manifest.c:22-39 | fails exactly if one of the characters is not hexadecimal, and otherwise yields the bytes they stand for |
| HexCodec.BinaryOfHexText | src/aknano_targets_manifest.c:22-39 | decoding inverts encoding, for every byte string |
| HexCodec.HexTextOfBinary | src/aknano_device_gateway.c:47-52 | encoding what was decoded gives the text in upper case |
| HexCodec.HexDigitTable | src/aknano_device_gateway.c:49 | the digits and their values, in both cases |
| HexCodec.SerialStringToUuidString | src/aknano_device_gateway.c:54-72 | inserts the four dashes |
| HexCodec.UuidWithoutDashesIsSerial | src/aknano_device_gateway.c:54-72 | deleting the dashes gives back the serial |
| HexCodec.UuidGroups | src/aknano_device_gateway.c:63-71 | the UUID is the serial in groups of 8, 4, 4, 4 and 12 |
| HexCodec.GenSerialAndUuid | src/aknano_device_gateway.c:75-86 | the serial is the random bytes in hexadecimal, the UUID the serial with dashes, in the format the protocol relies on |
| TargetsManifest.MatchIsPrefix | src/aknano_targets_manifest.c:90-92 | a manifest value matches if and only if it is a prefix of the device's (or has it before a NUL) |
| TargetsManifest.FindMatch | src/aknano_targets_manifest.c:85-93 | true if and only if one of the first ten values matches |
| TargetsManifest.MatchesIff | src/aknano_targets_manifest.c:85-93 | for text without NULs: one of the first ten values is a prefix of the device's |
| TargetsManifest.EligibleIff | src/aknano_targets_manifest.c:47-162 | a target is eligible, with this selection, if and only if it is complete and one of its first ten hardware ids and one of its first ten tags match; version, length and the bytes of the hash are taken from it |
| TargetsManifest.StopsIff | src/aknano_targets_manifest.c:61-147 | exactly which targets end the scan |
| TargetsManifest.Context.ParseSingleTarget | src/aknano_targets_manifest.c:47-162 | fails exactly on a target that stops the scan, and replaces the selection exactly by an eligible target of a higher version |
| TargetsManifest.Context.ParseTargets | src/aknano_targets_manifest.c:204-214 | selects the first target of the highest version among the eligible ones before the first error |
| TargetsManifest.ScanEndsAtError | src/aknano_targets_manifest.c:207-214 | the scan takes every target up to the first in error, and none beyond it |
| TargetsManifest.FirstWins | src/aknano_targets_manifest.c:74-75 | of several eligible targets of the highest version the first is selected |
| TargetsManifest.ParseTargetsMetadata | src/aknano_targets_manifest.c:165-217 | which status each bad input gives, and otherwise that selection from a fresh context, which some target of the manifest means for the device |
| TargetsManifest.SelectionIsMeant | src/aknano_targets_manifest.c:204-214 | a selection has the version, length and hash of a target of the manifest whose hardware ids and tags match |
| TargetsManifest.HighestVersionIsHighest | src/aknano_targets_manifest.c:70-75 | that version bounds all eligible ones and is reached |
| TargetsManifest.SelectionIsUnique | src/aknano_targets_manifest.c:204-214 | the manifest leaves no choice: what is scanned and which target is selected are determined |
| TargetsManifest.OrderDoesNotMatter | src/aknano_targets_manifest.c:204-214 | for well-formed targets of different versions the selection is independent of their order |
| JsonText.ReplaceEscapedChars | src/aknano_api.c:83-102 | writes the unescaped text and a terminator, never more than the input's length plus one, and nothing else |
| JsonText.UnescapeOfEscape | src/aknano_api.c:90-97 | unescaping undoes the escaping of newline, carriage return, quote and backslash, for every text |
| JsonText.EscapeOfUnescape | src/aknano_api.c:90-101 | and escaping undoes unescaping exactly on text escaped that way |
| JsonText.EscapesByCharacter | src/aknano_api.c:89-99 | what each escape stands for; an unknown one disappears, and a last backslash stays |

## Left out

- UidDecimal.PrintUidInteger: nothing but termination and memory safety is stated for strings of 28 million characters or more, where the 32-bit sums may wrap.
- Client.Client.SetImageConfirmed: marking the image permanent always succeeds here; the source carries on with a temporary image when it fails.
- Client.Client.FillEventPayload: of an event only its effect on the settings is modelled; the text it makes up for a missing correlation id is an input.
- Client.Client.CheckIn: connection, configuration download and the refresh's own decisions are one nondeterministic outcome with a list of role files; reads during the refresh are modelled in `TufStore` alone.
- TufStore.WriteLocalFile: for a role without a file nothing is promised but the frame, since the address is not aligned and the driver's behaviour there is not known.
- Client.Client.SampleLoop: applications that call the public functions in another order, or do not declare their self test passed, are not modelled.
- Power loss in the middle of a settings write (sector erased, page not yet programmed): not a state of the protocol; `NorFlash` says what a failed write may leave.
- Download.DownloadImage: for replies whose length is not a multiple of 4096 before the last, what the slot holds is left open, as the driver's behaviour at unaligned addresses is not known; so is the running slot at positions other than 1 and 2.
- TufStore.ReadLocalFile: on a driver that fails, only the frame and the result codes are stated.
- TLS, HTTP, PKCS#11, certificates and the EdgeLock 2GO agent: libraries and plumbing that are not part of this model.
- Signature and metadata checks of libtufnano, the JSON parser, mbedTLS and MCUboot: not part of this repository.
- The computation of the next retry time: with a retry limit of 0 it cannot matter (src/aknano_api.c:386-387); the time is an input.
- Explicit registration, dry runs and the roll-back test build.
- Event texts, time strings, INI parsing, logs, and 64-bit `time_t` in the settings page.
- Sizes, addresses and file lengths are unbounded integers where the model's preconditions keep them below 2^31 on the device.
