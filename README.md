# AstraFWU firmware updater — a Dafny model of its local logic

AstraFWU is a command-line tool that lists the Orbbec Astra Mini depth cameras
attached over USB and pushes a firmware image to the selected ones through the
closed Orbbec SDK. Almost all of `src/main.cpp` calls that SDK. This project
models the logic the program owns itself and proves what it does:

- reading the options that `getopt_long` returns into the `optpar_*` flags and the `par_parsed` counter;
- the early exits (help, versions, nothing parsed, no device, list);
- the device selector that builds `fw_dev_lists`, including the `%X` rendering of the USB pid it compares with;
- the firmware-path test and the upgrade outcome recorded by the progress callback;
- the per-device driver loop that stops at the first failure;
- the reboot watch kept by the device-changed callback, and its "Ok." / "Failure." check;
- the program name taken from `argv[0]` with `strtok`.

The SDK becomes inputs:
- the device list is a sequence of device-information records (`None` where the information query returned null);
- the upgrade of device `i` is the sequence of progress events `progress(i)` it reports;
- the notifications after its reboot are `changes(i)`;
- `access(fw, 0)` is a boolean.

Modules, in dependency order:
- `Wrappers`: `Option`, used for null pointers.
- `CStrings`: `strstr`, `snprintf` truncation into a fixed buffer, `strtok` tokens.
- `Hex`: `%X` of a `uint16_t`.
- `ProgName`: the `argv[0]` loop.
- `Options`: the option loop and the decision after it.
- `Selector`: `fw_dev_lists`.
- `Upgrade`: the globals of src/main.cpp:77-85 as the class `Session`, its two callbacks, `upgrade_firmware`, the wait and the reboot check.
- `Driver`: the upgrade loop and the whole run.

Points where the code does something other than its help text, messages and identifiers suggest; the model follows the code:
- The firmware path is accepted when ".img" or ".bin" occurs anywhere in it (`strstr`), not only as a suffix.
- Nothing ever sets `is_wait_reboot_complete_` to true. So the device-changed callback never changes anything, the 60-second wait returns at once, and every upgraded device is reported as "Failure.". Removal is never required before the re-added device is accepted.
- The help text (src/main.cpp:108-109) gives the `-p` examples "0407" and "065B". `%X` writes no leading zero, so the pids render as "407" and "65B", and `-p 0407` selects no device (`Hex.PidExamples`).
- Every early exit, including "device not found" and an inaccessible firmware file, returns 0. Only a failed upgrade returns -1, and it aborts the remaining devices.

## Model

| member | source | states |
|---|---|---|
| CStrings.FindSub | src/main.cpp:240-243 | `strstr`: returns the first index where the pattern occurs, and None exactly when it occurs nowhere |
| CStrings.ContainsIff | src/main.cpp:240-245 | the `strstr(...) != NULL` test holds iff the pattern occurs at some index |
| CStrings.Truncate | src/main.cpp:503-506 | `snprintf(buf, size, "%s", s)` keeps a prefix of `s`: all of it when it fits, otherwise exactly size-1 characters |
| CStrings.TokensAreTokens | src/main.cpp:262-268 | every token `strtok` returns is non-empty and holds no backslash |
| CStrings.TokensEmptyIff | src/main.cpp:262-270 | `strtok` returns no token iff argv[0] consists of backslashes only |
| CStrings.LastTokenCharacterised | src/main.cpp:264-271 | the last token is the run of non-backslashes that starts the string or follows a backslash and is followed only by backslashes |
| ProgName.ProgramName | src/main.cpp:261-274 | the `strtok` loop keeps the last token; the name stays null iff argv[0] is all backslashes; otherwise it is the last token as characterised above |
| Hex.FormatHexIsCanonical | src/main.cpp:444-446 | `%X` output is non-empty, upper-case hex and has no leading zero, and its value is the number printed |
| Hex.FormatHexOfValue | src/main.cpp:444-446 | every canonical upper-case hex string is the `%X` output of its own value (the inverse direction) |
| Hex.PidArgMatches | src/main.cpp:444-469 | the `-p` argument equals the `%X` text of a pid iff it is canonical upper-case hex with that value |
| Hex.FormatHexInjective | src/main.cpp:444-446 | different pids never have the same `%X` text |
| Hex.FormatHexLength | src/main.cpp:444-446 | a value below 16^k needs at most k digits |
| Hex.PidFitsBuffer | src/main.cpp:444-446 | a 16-bit pid needs at most 4 digits, so the 6-byte `usb_pid` buffer never truncates it |
| Hex.PidExamples | src/main.cpp:106-109 | pid 0x0407 renders as "407" and 0x065B as "65B"; "0407" and "65b" do not match them |
| Options.ApplyKeepsConsistent | src/main.cpp:287-353 | one pass of the `switch` keeps `all` and `devonly` exclusive and gives `devonly` its argument |
| Options.ApplyPolicy | src/main.cpp:295-352 | one pass of the `switch`: `-a`, or `-d`/`-s`/`-p` with an argument, sets its own policy; any other option keeps the policy |
| Options.ApplyCounts | src/main.cpp:295-352 | one pass of the `switch` increments `par_parsed` exactly for `-a`/`-l`/`-v` and for `-d`/`-s`/`-p` with an argument |
| Options.ApplyHelp | src/main.cpp:289-293 | one pass of the `switch` returns through the help case iff the option is `-h` or a character it has no case for |
| Options.ApplyVersions | src/main.cpp:310-313 | one pass of the `switch` never sets `versions` without a nonzero `par_parsed` |
| Options.FoldKeepsConsistent | src/main.cpp:287-353 | each option preserves "`all` and `devonly` not both set, and `devonly` has the argument of its `devtype`" |
| Options.ModesExclusive | src/main.cpp:295-352 | after any option sequence `all` and `devonly` are never both 1 |
| Options.LastSelectorWins | src/main.cpp:295-352 | the last of `-a`/`-d`/`-s`/`-p` (with argument) decides the policy: all devices, or only uid/sn/pid (devtype 0/1/2) with that option's argument; with none of them the policy is unchanged |
| Options.NoSelectorNoMode | src/main.cpp:60-72 | with no selector option, neither `all` nor `devonly` is set |
| Options.FoldCounts | src/main.cpp:276-353 | `par_parsed` is the number of `-a`/`-l`/`-v` options and `-d`/`-s`/`-p` options with argument; `-e` is not counted |
| Options.HelpIff | src/main.cpp:287-293 | parsing ends in the help exit iff some option is `-h` or one the switch does not know (unknown option, missing argument) |
| Options.HelpAt | src/main.cpp:287-293 | once the loop reaches a help option, the whole option sequence ends in the help exit |
| Options.HelpStopsParsing | src/main.cpp:289-293 | once the help case is reached, no later option changes the outcome |
| Options.FirstPositional | src/main.cpp:359-365 | the positional loop keeps the first positional argument as the firmware path, and sets it iff there is one |
| Options.ParseOptions | src/main.cpp:276-365 | the option loop yields exactly the fold of the option sequence (or help); the result is consistent, the counter is exact, and only the first positional argument becomes the firmware path |
| Options.Decide | src/main.cpp:367-418 | the checks after parsing: help first; then `-v`; then a zero count gives the usage exit; then no device; then `-l`; each exit holds exactly under its condition, and otherwise selection goes on with the parsed flags and file |
| Options.VersionsFirst | src/main.cpp:367-378 | with `-v` given and no help, the run exits through the version branch, before the count, device and list checks |
| Options.NothingParsedShowsUsage | src/main.cpp:387-392 | with no counted option and no help option, the usage text is shown and the exit code is 0, whatever the positional arguments and devices |
| Options.VersionsCounted | src/main.cpp:310-313 | a set `versions` flag implies a nonzero `par_parsed` |
| Options.SelectOnlyWhen | src/main.cpp:367-418 | selection is reached iff parsing ended normally, `-v` is absent, the count is nonzero, some device is present and `-l` is absent |
| Options.LastWinsExample | src/main.cpp:295-326 | `-a -d X` ends in uid selection of X, `-d X -a` in all-device selection |
| Selector.SelectedProperties | src/main.cpp:420-473 | all mode selects exactly [0..n-1]; devonly mode selects strictly increasing indices below n, index i iff device i has information whose chosen attribute equals the argument; otherwise nothing |
| Selector.SelectDevices | src/main.cpp:420-473 | the two selection loops build exactly that list |
| Selector.SerialExample | src/main.cpp:457-462 | three devices where only the second has sn "B": selecting by sn "B" gives [1] |
| Selector.PidSelectionIff | src/main.cpp:444-469 | a device is picked by `-p` iff the argument is canonical upper-case hex with the device's pid as value |
| Upgrade.StepAddMatch | src/main.cpp:146-184 | while waiting, an added list whose first device has the stored sn records that device and clears waiting |
| Upgrade.StepRemoveMatch | src/main.cpp:186-201 | while waiting, a removed list whose first uid is the stored uid sets `removed` and leaves waiting set, when no added device matches the stored sn |
| Upgrade.RecordedIff | src/main.cpp:142-206 | after a sequence of notifications a rebooted device is recorded iff one was already recorded, or the watch was armed and some notification's first added device has the stored sn; the stored uid and sn never change |
| Upgrade.InertWhenNotWaiting | src/main.cpp:146-202 | when not waiting, no notification sequence changes any flag |
| Upgrade.AlwaysFailure | src/main.cpp:536-543 | from the initial globals, no notification sequence records a rebooted device, so the check prints "Failure." |
| Upgrade.PathAcceptedIff | src/main.cpp:240-245 | the firmware path is accepted iff ".img" or ".bin" occurs at some index |
| Upgrade.PathAcceptedExamples | src/main.cpp:240-245 | "fw.img" and "fw.bin.old" are accepted, so this is a substring test and not a suffix test |
| Upgrade.PathRejectedExamples | src/main.cpp:240-249 | "fw.im" and "fw.zip" are refused |
| Upgrade.UpgradeExamples | src/main.cpp:231-235 | with an accepted path, events {in progress at 50%, done at 100%} succeed and {in progress at 50%} alone fails |
| Upgrade.Session.constructor | src/main.cpp:77-85 | the globals start not waiting, not removed, not successful, with no rebooted device and empty identity |
| Upgrade.Session.StoreIdentity | src/main.cpp:503-506 | the stored uid and sn are the values truncated to 127 and 31 characters; nothing else changes |
| Upgrade.Session.OnDeviceChanged | src/main.cpp:142-206 | `dev_changed_cb` moves the watch state by one step and leaves the upgrade flag alone |
| Upgrade.Session.OnUpgradeProgress | src/main.cpp:224-236 | only a `STAT_DONE` event sets the success flag; nothing else changes |
| Upgrade.Session.UpgradeFirmware | src/main.cpp:238-256 | the result is true iff the path is accepted and some progress event is `STAT_DONE`; a refused path leaves the flag untouched, an accepted one first clears it |
| Upgrade.Session.WaitRebootComplete | src/main.cpp:525-533 | the wait handles the notifications in order, each while the watch is still armed; it stops early only once waiting is cleared, and returns at once when not waiting |
| Driver.FirstFailure | src/main.cpp:489-515 | finds the first selected device whose upgrade fails: all before it succeed; None means all succeed |
| Driver.StopsAt | src/main.cpp:508-513 | when the device at position k is the first whose upgrade fails, the loop returns -1 after attempting exactly the first k+1 devices |
| Driver.RunsThrough | src/main.cpp:489-548 | when every upgrade succeeds, all selected devices are attempted and the result is 0 |
| Driver.UpgradeDevice | src/main.cpp:490-544 | one pass of the loop: it stores the device's uid and sn truncated to 127 and 31 characters ("(null)" when its information is null) as the identity the reboot watch expects; its result is the upgrade's; "Ok." is reported only after a successful upgrade; from an unarmed watch with no rebooted device it reports "Failure." and the watch stays so |
| Driver.AttemptsArePrefix | src/main.cpp:489-515 | devices are attempted in selection order; the attempts are a prefix of the selection; all but the last succeeded; the exit code is -1 iff some selected upgrade fails, and then the last attempt failed |
| Driver.DriveUpgrades | src/main.cpp:489-544 | the loop's exit code and attempts are those of the first failure; one report per upgraded device, each "Failure." when the loop starts from the initial watch state |
| Driver.RunUpdater | src/main.cpp:258-549 | the whole run: early exits return 0 with nothing attempted; an empty selection needs no firmware file; a non-empty selection without an accessible file returns 0 before any upgrade; otherwise the result is the driver loop's; every reboot report is "Failure." |

## Left out

- The Orbbec SDK (`ob_*` calls): context, device lists, info accessors, upgrade transfer, reboot and releases. The SDK's outputs are the inputs described above, because the library cannot be seen.
- `getopt_long` itself. The model takes its results as (option character, argument) pairs and the positional arguments it leaves behind. The option characters of `short_opts` are not re-derived.
- `access()`, the mutex and the condition variable, the 60-second timeout and the SDK's callback thread. The callbacks are sequential calls. The notifications that follow a device's reboot are handed to the wait while it is armed, and the rest are handled after the "Ok."/"Failure." check. Because the watch is never armed, this order does not change any result.
- Notifications that arrive during the upgrade transfer are not modelled as separate inputs. The watch is inert, so they could not change anything.
- All console output: the banner (`-e` only sets its flag), help text, version numbers, device listing, progress printing and the printing-only defects at src/main.cpp:218 and src/main.cpp:229.
- Memory management: `strdup`, `delete` and `delete[]`, the `RELEASE_*` macros and `releaseParams`.
- Using `dev_list` after `ob_delete_device_list` in the driver loop (src/main.cpp:521). The model assumes the list stays valid for later devices.
- A selected device whose information query returned null. The model stores "(null)" as its uid and sn, which is what glibc's `snprintf` writes for a null `%s` argument. The C code's behaviour there depends on the SDK.
- CStrings.Truncate: counts characters, where `snprintf` counts bytes. The two agree for the ASCII uids and serial numbers the SDK reports.
- `par_parsed` is a `size_t` and `percent` a `uint8_t`; both are unbounded naturals here, since neither can wrap in any realistic run.
