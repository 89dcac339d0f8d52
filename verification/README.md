# Models of the Wi-Fi, thermal, USB and screen capture services

This project models the stateful cores of a set of Android hardware services and proves what they keep.

- **Wi-Fi concurrency** (`Concurrency`, `Matching`, `IfaceMatrix`): a chip mode allows combinations of interface
  limits. The mixed-radix expansion lists every choice of types once, and the admission check that searches it
  answers a matching question: whether the interfaces can be shared out among the limits.
- **Wi-Fi chip** (`ChipSpec`, `ChipCalls`, `ChipRuns`, `ChipNames`, `ChipFailures`, `WifiChipClass`): the operations
  that create, remove and split interfaces and configure the chip. `ChipSpec` states each as a function, `ChipCalls`
  ties each to the mode's limits and to what a caller sees, the class does it in place, runs of any length keep the
  event log, and it is proved which calls keep the mode's limits and the names.
- **Start and stop** (`LegacyHal`, `WifiRoot`): an interleaving of callers, the vendor's event loop and the stop
  callback under one lock that is given up while a stop waits.
- **Thermal** (`Severity`, `ThermalSpec`, `ThermalOutcomes`, `ThermalService`): severities with hysteresis, the
  watcher, and the list of subscribers.
- **Formats** (`Streams`, `Cpio`, `CpioFormat`, `CpioWriter`, `CpioDirectory`, `Elements`, `Layouts`): the cpio
  archive of the debug logs, also by the offsets of its format, the parser of IEEE 802.11 information elements, and the
  walkers over records of varying stride.
- **Smaller cores** (`RingBuffers`, `UsbRoleSwitch`, `UsbOutcomes`, `CaptureBuffers`): the debug ring buffer, the
  Type-C role switch and the reference counts of capture buffers.

Answers of the system (driver calls, properties, file contents, failures) are parameters, or choices of a step, that
the theorems quantify over. Floating point temperatures are reals, and a missing threshold is `None`.

Where a property the design suggests does not hold of the code, the project states when it does:

- Splitting a bridged access point can leave the mode's limits; `SplitBreaksRoom` is such a run, `ModeSplitSafeIff`
  gives the exact condition on the mode, `SplitSafeIff` the one on a single combination.
- A bridge name can be reused while it is live. Building the second bridge retypes the live access point
  (`ReuseBreaksRoom`), and failing to build it silently unbridges the live one (`FailureBreaksRoom`); both are runs that
  leave their mode. `BridgeRoomIff` and `BridgeNamesIff` say exactly when the limits and the names are kept.
- Over whole runs, `LiveAlwaysFits` says exactly which calls keep the limits.
- A bridged access point can get one name for both instances (`InstancesDifferIff`, reached in `InstancesCoincide`).
- What is named after a bridge instance survives the removal of the bridge (`DependantGoesIff`, reached in
  `DependantSurvives`).
- A start can return success without running (`SuccessWithoutRunningIff`), it can end half done (`HalfStartIff`) and
  can then never be undone (`HalfStartIsFinal`), and a waiting stop may return in a running HAL (`WokenNotIdleIff`).
- Installing the driver's combinations can leave the chip in a mode it no longer lists (`DynamicModeIsValidIff`), and
  then configuring the one mode it lists aborts (`UnlistedModeAborts`).
- With the default zero hysteresis a steady reading on a threshold flickers (`RepeatIsStableIff`,
  `KeepsLessThanReachedIff`), and exactly overlapping bands let a reading raise the severity to a
  level it has not reached (`RisesByReachingIff`).
- A partner recorded after the wait for it timed out does not make a role switch succeed (`SuccessIff`,
  `PartnerTooLate`).
- An interface matrix with only unknown types is accepted but cannot be expanded (`MatrixExpandsIff`).
- An archived file that grew after its status was read, or whose size exceeds 32 bits, gives a record that does not
  read back (`WrittenReadsBackIff`).
- A capture buffer is leaked by a window that fails and queued twice with both consumers in use (`WorkBalancedIff`,
  `WorkLeaksIff`).

Loops and updated objects of the source are methods and classes; the two start/stop protocols and the role switch are
step systems over values, since their point is the interleaving.

## Model

| member | source | states |
|---|---|---|
| Concurrency.DigitFormula | wifi/wifi_chip.cpp:1704-1706 | the digit that the running `span` division picks for a slot is the digit of the mixed-radix representation of the index |
| Concurrency.IndexOfDigits | wifi/wifi_chip.cpp:1701-1710 | the digits of an index below the number of choices compute back to that index |
| Concurrency.DigitsOfIndex | wifi/wifi_chip.cpp:1701-1710 | the index computed from a digit tuple lies below the number of choices and has exactly that tuple as its digits |
| Concurrency.ChoiceHasIndex | wifi/wifi_chip.cpp:1681-1712 | every way to pick one allowed type per slot is the pick of some index |
| Concurrency.CountLimit | wifi/wifi_chip.cpp:1684-1688 | the counting loop multiplies in the size of a limit once per interface it allows |
| Concurrency.CountChoices | wifi/wifi_chip.cpp:1683-1688 | the number of rows allocated is the number of choices, without leaving 32 bits when that number fits |
| Concurrency.FillSlot | wifi/wifi_chip.cpp:1704-1708 | one slot's loop adds, in row k, the type the slot's digit of k picks and touches nothing else |
| Concurrency.FillLimit | wifi/wifi_chip.cpp:1702-1710 | one limit's loops advance every row by the picks of all its slots |
| Concurrency.Expand | wifi/wifi_chip.cpp:1681-1712 | row k of the expansion counts exactly the types of the k-th choice, for every k and no more rows |
| Matching.PlaceableIffCovered | wifi/wifi_chip.cpp:1714-1757 | interfaces can be placed injectively into slots that allow their types if and only if some choice has at least as many of every type |
| Matching.ListedIffChoice | wifi/wifi_chip.cpp:1681-1733 | a count map is listed by the expansion if and only if it counts some choice of the slots |
| Matching.IndicesDiffer | wifi/wifi_chip.cpp:1681-1712 | two different indices have different digit tuples |
| Matching.PlaceableIffAssigned | wifi/wifi_chip.cpp:1681-1757 | interfaces can be placed into a combination's slots if and only if they can be shared out among its limits, each allowing the type and taking no more interfaces than its maximum |
| Matching.FitsFewer | wifi/wifi_chip.cpp:1740-1757 | what fits still fits in any order and after some interfaces are gone |
| Matching.SplitKeepsPlacement | wifi/wifi_chip.cpp:1050-1088 | turning a bridged access point into a plain one keeps a placement when every slot that allows the former allows the latter |
| Matching.SplitCounterexample | wifi/wifi_chip.cpp:1050-1088 | if some slot allows a bridged access point but no plain one, some interfaces fit before a split and not after it |
| Matching.SplitSafeIff | wifi/wifi_chip.cpp:1050-1088 | in one combination, splitting is safe for all interfaces that fit if and only if every slot that allows bridged access points allows plain ones |
| Matching.ModeSplitSafeIff | wifi/wifi_chip.cpp:1050-1088 | in a whole mode, splitting is safe for all interfaces that fit if and only if every choice of its combinations still fits, in any combination, with one bridged access point made plain |
| Matching.AllBridgedImplyAp | wifi/wifi_chip.cpp:1050-1088 | a mode whose limits allow plain access points wherever they allow bridged ones tolerates every split |
| Matching.OtherCombinationTakesSplit | wifi/wifi_chip.cpp:1050-1088 | a mode can be safe although one of its combinations is not: another takes the split |
| Matching.CanExpandedComboSupport | wifi/wifi_chip.cpp:1714-1733 | one row has room for the live interfaces and the requested one, compared type by type |
| Matching.AnyExpandedComboSupports | wifi/wifi_chip.cpp:1740-1757 | the search over the rows of one combination succeeds if and only if the combination has a placement |
| Matching.CanModeSupport | wifi/wifi_chip.cpp:1740-1757 | the enumerate-and-compare admission check answers the placement question for the live interfaces plus the new one, both ways |
| Matching.CanExpandedComboSupportCombo | wifi/wifi_chip.cpp:1761-1778 | one row has room for a requested combination |
| Matching.AnyExpandedComboSupportsCombo | wifi/wifi_chip.cpp:1794-1800 | the search over the rows for a requested combination succeeds if and only if it can be placed |
| Matching.CanModeSupportCombo | wifi/wifi_chip.cpp:1787-1803 | a combination is supported by the mode if and only if it can be placed in one of the mode's combinations |
| ChipRuns.StepDescribed | wifi/wifi_chip.cpp:818-1248 | every operation keeps the replay of added and removed events equal, as counts of (type, name), to the live interfaces |
| ChipRuns.EventsDescribeLive | wifi/wifi_chip.cpp:921-1248 | in every run, replaying the events since the last configuration gives exactly the live interfaces |
| ChipRuns.NoDependentSurvives | wifi/wifi_chip.cpp:1228-1248 | removing a station removes every aware interface and ranging controller named after it, keeps all others and removes one station |
| ChipRuns.DynamicModeIsValidIff | wifi/wifi_chip.cpp:383-409 | after the driver's own combinations replace the modes, the configured mode is still listed if and only if it is the one id given to them |
| ChipRuns.StepSafeIff | wifi/wifi_chip.cpp:818-1248 | every operation keeps the live interfaces within one combination of the current mode if and only if the call is careful: where it retypes live access points (a bridge built or failing under a live name, a split, a removal among equal names) the retyped list fits, and a matrix it takes over can be expanded |
| ChipRuns.LiveAlwaysFits | wifi/wifi_chip.cpp:818-1248 | in every run the live interfaces fit the current mode after every operation if and only if every call is careful |
| ChipRuns.BridgeRoomIff | wifi/wifi_chip.cpp:972-1010 | for every pattern of driver failures, the mode's limits hold after creating a bridged access point if and only if the live interfaces fit with those of its name bridged and the new one added when it is built, or with those of its name plain when it fails after their entry was overwritten |
| ChipRuns.TolerantNeedsNoCare | wifi/wifi_chip.cpp:1050-1088 | in a mode that tolerates splits every call but a configuration is careful, unless it builds a bridge under a live name |
| ChipCalls.PlaceIff | wifi/wifi_chip.cpp:1740-1757 | a request is admitted if and only if the limits of some combination of the first mode with the chip's id take one more interface beside one per live interface |
| ChipCalls.FirstFreeIs | wifi/wifi_chip.cpp:1861-1872 | the allocator's answer is the least index from the start whose name no station, access point, bridge or instance has, and none if and only if there is no such index |
| ChipCalls.StartIs | wifi/wifi_chip.cpp:1874-1885 | access point names start at 2 if the mode's limits take two stations, else at 1 if they take a station and an access point, else at 0 |
| ChipCalls.ActiveIs | wifi/wifi_chip.cpp:1840-1856 | the active interface is the first station, else the first access point or the first instance of its bridge, else the first name of the table; none exactly if that bridge has no instances |
| ChipCalls.CreateStaIs | wifi/wifi_chip.cpp:1189-1210 | for every chip and answer: not available exactly without a place, aborted without a free name, the driver's error, or one more station with the first free name and one event |
| ChipCalls.CreateApIs | wifi/wifi_chip.cpp:940-970 | the same for access points, with the first unused predefined name or the first free one from the start index |
| ChipCalls.CreateBridgedApIs | wifi/wifi_chip.cpp:972-1010 | for every pattern of driver answers: the instances, the bridge named after the first, the access point and its event, or what each failure leaves |
| ChipCalls.InstancesAre | wifi/wifi_chip.cpp:1899-1915 | the instance names are the predefined two, or the answers of searches that each start one index further |
| ChipCalls.CreateNanIs | wifi/wifi_chip.cpp:1090-1111 | an aware interface under its own name or over the active interface exactly if there is a place, with one event; otherwise nothing changes |
| ChipCalls.CreateP2pIs | wifi/wifi_chip.cpp:1143-1157 | a peer-to-peer interface exactly if there is a place, with one event; otherwise nothing changes |
| ChipCalls.CreateRttIs | wifi/wifi_chip.cpp:1250-1262 | a ranging controller over the active interface exactly if there is a station or a place for one |
| ChipCalls.RemoveNanIs | wifi/wifi_chip.cpp:1129-1141 | the first aware interface of the name goes, everything else stays in its place, with one event; an unknown name changes nothing |
| ChipCalls.RemoveP2pIs | wifi/wifi_chip.cpp:1175-1187 | the same for peer-to-peer interfaces |
| ChipCalls.RemoveStaIs | wifi/wifi_chip.cpp:1228-1248 | exactly the dependants of that name go, with one event for each aware interface, then the first station of the name with its event |
| ChipCalls.RemoveApIs | wifi/wifi_chip.cpp:1028-1048 | the same for access points, with the instances of the bridge of that name |
| ChipCalls.RemoveInstanceIs | wifi/wifi_chip.cpp:1050-1088 | the instance leaves its bridge, and no other does, exactly if the driver unbinds and deletes it |
| ChipCalls.ConfigureIs | wifi/wifi_chip.cpp:818-849 | for every mode and answer: what is live, the mode, the modes, the events and the status afterwards |
| ChipFailures.ReachedByRun | wifi/wifi_chip.cpp:818-1248 | a chip called reached below is the last state of a run from a new chip, careful up to its last call |
| ChipFailures.SplitBreaksRoom | wifi/wifi_chip.cpp:1050-1088 | a run ends outside every combination by a split, in every two-slot mode without stations and plain access points: configure, create a bridged access point, remove its first instance |
| ChipFailures.ReuseBreaksRoom | wifi/wifi_chip.cpp:972-1010 | a run ends outside every combination by name reuse: configure, create a bridged access point, remove its first instance, create another |
| ChipFailures.FailureBreaksRoom | wifi/wifi_chip.cpp:994-1005 | a run ends outside every combination by a failing call: with two predefined names, configure, create a bridged access point, and create another whose bridge the driver refuses |
| ChipFailures.DependantSurvives | wifi/wifi_chip.cpp:1028-1048 | a run ends with an aware interface over an access point that is gone: configure, create a bridged access point and an aware interface, remove the access point |
| ChipFailures.InstancesCoincide | wifi/wifi_chip.cpp:1899-1915 | a run reaches a chip with distinct names in which the next bridged access point would get one name for both instances |
| ChipNames.FirstFreeGivesUpIff | wifi/wifi_chip.cpp:1861-1872 | the allocator finds no name (and aborts) if and only if every index from the start is in use |
| ChipNames.InstancesDifferIff | wifi/wifi_chip.cpp:1899-1915 | the two instance names are not in use, and they differ if and only if the name at the start index is free |
| ChipNames.StepKeepsNames | wifi/wifi_chip.cpp:1861-1915 | every operation keeps stations, access points, bridges and instances apart, if a bridged access point that gets built has fresh names |
| ChipNames.LiveNamesUnique | wifi/wifi_chip.cpp:1861-1915 | in every run that is careful about names no two live devices share a name |
| ChipNames.BridgeNamesIff | wifi/wifi_chip.cpp:972-1010 | names stay apart after building a bridged access point if and only if the start index is free and the bridge's name is neither in use nor its second instance's |
| ChipNames.ReuseRetypes | wifi/wifi_chip.cpp:972-1010 | creating a bridged access point under a live name turns the live one into a bridged one as well |
| ChipNames.DependantGoesIff | wifi/wifi_chip.cpp:1028-1048 | an aware interface named after the first access point is removed with it if and only if that is not bridged or is named like its first instance; otherwise it survives |
| ChipNames.ControllerGoesIff | wifi/wifi_chip.cpp:1028-1048 | the same for ranging controllers |
| WifiChipClass.WifiChip.CurrentModeCombinations | wifi/wifi_chip.cpp:1639-1652 | finds the combinations of the current mode, or none |
| WifiChipClass.WifiChip.CurrentCombination | wifi/wifi_chip.cpp:1656-1675 | counts the live interfaces by type, bridged access points apart |
| WifiChipClass.WifiChip.CanSupport | wifi/wifi_chip.cpp:1740-1757 | answers whether the live interfaces and one more fit the current mode |
| WifiChipClass.WifiChip.StartIdxOfApIface | wifi/wifi_chip.cpp:1874-1885 | the start index, by whether the mode can hold two stations or a station and an access point |
| WifiChipClass.WifiChip.AllocateIfaceName | wifi/wifi_chip.cpp:1861-1872 | the search for the first name not in use is the specified one, with giving up |
| WifiChipClass.WifiChip.AllocateApIfaceName | wifi/wifi_chip.cpp:1889-1897 | the access point name, predefined or searched for |
| WifiChipClass.WifiChip.AllocateBridgedApInstanceNames | wifi/wifi_chip.cpp:1899-1915 | the two instance names, predefined ones first |
| WifiChipClass.WifiChip.FirstActiveWlanIfaceName | wifi/wifi_chip.cpp:1840-1856 | the name published as active, which is one in use whenever there is a station or access point; none if the first access point lost all its instances |
| WifiChipClass.WifiChip.InvalidateAndRemoveDependencies | wifi/wifi_chip.cpp:751-776 | the erase loop removes exactly the aware interfaces and ranging controllers of that name, with one event per aware interface |
| WifiChipClass.WifiChip.CreateApIface | wifi/wifi_chip.cpp:940-970 | the new state and status of creating an access point are the specified ones; the events still describe the live interfaces, and the mode's limits are kept exactly if the call is careful |
| WifiChipClass.WifiChip.CreateBridgedApIface | wifi/wifi_chip.cpp:972-1010 | the new state and status of creating a bridged access point, for every pattern of driver failures; the events still describe the live interfaces, and the mode's limits are kept exactly if the call is careful |
| WifiChipClass.WifiChip.RemoveApIface | wifi/wifi_chip.cpp:1028-1048 | the new state and status of removing an access point; the events still describe the live interfaces, and the mode's limits are kept exactly if the call is careful |
| WifiChipClass.WifiChip.RemoveIfaceInstanceFromBridgedApIface | wifi/wifi_chip.cpp:1050-1088 | the new state and status of splitting a bridged access point; the events still describe the live interfaces, and the mode's limits are kept exactly if the call is careful |
| WifiChipClass.WifiChip.CreateNanIface | wifi/wifi_chip.cpp:1090-1111 | the new state and status of creating an aware interface; the events still describe the live interfaces, and the mode's limits are kept exactly if the call is careful |
| WifiChipClass.WifiChip.RemoveNanIface | wifi/wifi_chip.cpp:1129-1141 | the new state and status of removing one; the events still describe the live interfaces, and the mode's limits are kept exactly if the call is careful |
| WifiChipClass.WifiChip.CreateP2pIface | wifi/wifi_chip.cpp:1143-1157 | the new state and status of creating a peer-to-peer interface; the events still describe the live interfaces, and the mode's limits are kept exactly if the call is careful |
| WifiChipClass.WifiChip.RemoveP2pIface | wifi/wifi_chip.cpp:1175-1187 | the new state and status of removing one; the events still describe the live interfaces, and the mode's limits are kept exactly if the call is careful |
| WifiChipClass.WifiChip.CreateStaIface | wifi/wifi_chip.cpp:1189-1210 | the new state and status of creating a station; the events still describe the live interfaces, and the mode's limits are kept exactly if the call is careful |
| WifiChipClass.WifiChip.RemoveStaIface | wifi/wifi_chip.cpp:1228-1248 | the new state and status of removing a station, its dependants first; the events still describe the live interfaces, and the mode's limits are kept exactly if the call is careful |
| WifiChipClass.WifiChip.CreateRttController | wifi/wifi_chip.cpp:1250-1262 | the new state and status of creating a ranging controller; the events still describe the live interfaces, and the mode's limits are kept exactly if the call is careful |
| WifiChipClass.WifiChip.ConfigureChip | wifi/wifi_chip.cpp:818-849 | the new state, events and status of configuring a mode; the events still describe the live interfaces, and the mode's limits are kept exactly if the call is careful; no interface is live after the mode changed |
| WifiChipClass.WifiChip.HandleChipConfiguration | wifi/wifi_chip.cpp:1515-1562 | what stopping, firmware change and starting do to the chip, with every failure; no interface is live afterwards |
| IfaceMatrix.TypesAreBits | wifi/aidl_struct_util.cpp:3297-3312 | a type is listed for a mask if and only if its bit is set |
| IfaceMatrix.TypesByValue | wifi/aidl_struct_util.cpp:3297-3312 | the bits have the values 1, 2, 4, 8 and 16 for stations, access points, peer-to-peer, aware and bridged access points |
| IfaceMatrix.LimitsAre | wifi/aidl_struct_util.cpp:3334-3346 | every limit keeps its place and its number of interfaces, with the types of its mask |
| IfaceMatrix.CombinationsAre | wifi/aidl_struct_util.cpp:3314-3353 | exactly the combinations with limits are converted, in order |
| IfaceMatrix.UnknownTypeIsAccepted | wifi/aidl_struct_util.cpp:3297-3353 | every limit whose mask has bits but none of a known type is accepted and makes a mode that cannot be expanded |
| IfaceMatrix.ConvertLimits | wifi/aidl_struct_util.cpp:3334-3346 | one combination's limits are converted if and only if no mask is zero |
| IfaceMatrix.ConvertMatrix | wifi/aidl_struct_util.cpp:3314-3353 | the conversion succeeds if and only if there is a combination and no mask is zero, and skips combinations without limits |
| IfaceMatrix.MatrixExpandsIff | wifi/aidl_struct_util.cpp:3314-3353 | the converted mode can be expanded without dividing by zero if and only if every limit that allows an interface has a known bit |
| LegacyHal.StepKeepsPhases | wifi/wifi_legacy_hal.cpp:465-537 | no step, a refresh of the interface handles included, leaves idle, half started, running, stopping and drained, and only a start outside idle aborts |
| LegacyHal.AlwaysInSomePhase | wifi/wifi_legacy_hal.cpp:465-537 | in every interleaving the HAL is in one of the five phases |
| LegacyHal.OnlyStartCanAbort | wifi/wifi_legacy_hal.cpp:1641-1651 | in every interleaving the handler finds its handle, no loop ends unexpectedly, and start passes its check if and only if the HAL is idle |
| LegacyHal.HalfStartIff | wifi/wifi_legacy_hal.cpp:465-504 | a start in the idle HAL ends half done if and only if it got a handle and then failed or found no interface, and runs if and only if it got a handle and did not |
| LegacyHal.StartIs | wifi/wifi_legacy_hal.cpp:465-504 | for all vendor answers what a start of the idle HAL returns and leaves: handle, event loop, interfaces and the started flag |
| LegacyHal.SuccessWithoutRunningIff | wifi/wifi_legacy_hal.cpp:485-504 | a start that returns success leaves the HAL not running if and only if the vendor gave no handle or no interface turned up |
| LegacyHal.StopIs | wifi/wifi_legacy_hal.cpp:506-527 | a stop of a HAL that is not started returns success at once; any other asks for cleanup and waits |
| LegacyHal.StopGoesOn | wifi/wifi_legacy_hal.cpp:1641-1651 | the stop handler and the end of the event loop lead from stopping to idle |
| LegacyHal.WaitedStopAnswers | wifi/wifi_legacy_hal.cpp:528-537 | in every run a stop that waited returns success if and only if the event loop has ended, and a time-out returns failure and changes nothing else |
| LegacyHal.HalfStartReached | wifi/wifi_legacy_hal.cpp:465-504 | a run of one start reaches the half-started phase for all such answers |
| LegacyHal.HalfStartIsFinal | wifi/wifi_legacy_hal.cpp:465-504 | a start that got a handle but no interface cannot be undone: stop does nothing and start aborts |
| LegacyHal.HalfStartedForever | wifi/wifi_legacy_hal.cpp:465-537 | half started is never left in any run |
| LegacyHal.WaitedStopEndsIdle | wifi/wifi_legacy_hal.cpp:506-537 | if no start is called while a stop waits, a stop that waited and succeeded ends idle |
| LegacyHal.IdleSinceExitIff | wifi/wifi_legacy_hal.cpp:1641-1651 | after an event loop has ended the HAL stays idle exactly as long as no start obtains a handle |
| LegacyHal.WokenNotIdleIff | wifi/wifi_legacy_hal.cpp:506-537 | in every run, a stop that waited returns success in a HAL that is not idle if and only if some start obtained a handle since the event loop ended |
| LegacyHal.WokenInRunningReached | wifi/wifi_legacy_hal.cpp:506-537 | a run in which a stop returns success in a running HAL |
| WifiRoot.ReconfigureStopIsARun | wifi/wifi_chip.cpp:1515-1562 | the stop inside a reconfiguration of a started HAL, running or already stopping, is a sequence of HAL steps that ends idle |
| WifiRoot.StepConsistent | wifi/wifi.cpp:105-270 | every step keeps chips, ids, validity and the single stopper consistent |
| WifiRoot.AlwaysConsistent | wifi/wifi.cpp:105-270 | in every interleaving chips are listed only while started, ids are 0 to n-1, valid chips are the listed ones, one stop waits at most, and a chip with the driver's matrix has only its mode |
| WifiRoot.InvalidForever | wifi/wifi_chip.cpp:424-433 | a chip that became invalid stays invalid and unlisted in every continuation |
| WifiRoot.StoppingIsExclusive | wifi/wifi.cpp:161-198 | while stopping, starts, stops and chip calls change nothing, and the stop that finishes leaves the HAL idle |
| WifiRoot.AnswersAreTrue | wifi/wifi.cpp:105-270 | in every run start answers success if and only if Wi-Fi is started afterwards, stop if and only if it is stopped afterwards and the HAL idle if it waited, and both refuse exactly while stopping |
| WifiRoot.StartWifiIs | wifi/wifi.cpp:105-140 | starting lists one new valid chip per HAL with ids from zero and changes no old one; in every other case nothing changes |
| WifiRoot.StopWifiIs | wifi/wifi.cpp:161-198 | stopping ends exactly the listed chips and stops the HAL if it is started |
| WifiRoot.HalStepIs | wifi/wifi_legacy_hal.cpp:1641-1651 | steps of the vendor change the HAL and nothing else |
| WifiRoot.ConfigureIs | wifi/wifi_chip.cpp:1515-1562 | a configuration that starts the HAL changes the chip exactly if the start returned success, runs the HAL exactly if it got a handle and an interface, and touches no other chip |
| WifiRoot.RefusedConfigureIs | wifi/wifi_chip.cpp:1515-1562 | one that does not changes no chip, and leaves the HAL as it was, stopped or stopping |
| WifiRoot.CleanRunsNeverAbort | wifi/wifi.cpp:105-270 | in runs without time-outs, half-done starts and matrices loaded in another mode than theirs no call aborts |
| WifiRoot.ConfigureAgrees | wifi/wifi_chip.cpp:818-849 | configuring does to the modes of a chip object what `ChipSpec.Configure` does to those of a chip, with this HAL's answers |
| WifiRoot.ConfigureAbortsIff | wifi/wifi_chip.cpp:1515-1562 | configuring aborts if and only if the mode is listed and not the current one, stop and firmware go well, and the HAL is neither idle nor running for a chip that knows it is configured |
| WifiRoot.UnlistedModeAborts | wifi/wifi_chip.cpp:818-826 | in every run, once the driver's matrix was loaded in another mode than its own and the HAL runs, configuring the matrix's mode aborts and every other mode is refused |
| WifiRoot.UnlistedModeReached | wifi/wifi_chip.cpp:383-409 | a run of two steps reaches such a state, for every listed mode other than the matrix's |
| WifiRoot.TimedOutStopAborts | wifi/wifi.cpp:244-270 | a chip that is not configured aborts if and only if the mode is listed, the firmware changes, and the HAL is not idle |
| WifiRoot.TimedOutStopReached | wifi/wifi.cpp:244-270 | a run reaches a new chip over a HAL that is not idle: configure, stop, time out, start |
| Severity.GetSeverityFromThresholds | thermal/ThermalHelper.cpp:257-296 | the descending loop computes the highest reached and the highest held level, hot and cold, and combines them with the previous ones |
| Severity.HotIsReachable | thermal/ThermalHelper.cpp:257-296 | the severity is none or a level with a threshold |
| Severity.HotIsNext | thermal/ThermalHelper.cpp:257-296 | the hot severity is the one level that thresholds and hysteresis give: the highest at or below the reading, or, where that is a fall, the highest whose band reaches below it |
| Severity.ColdIsNext | thermal/ThermalHelper.cpp:257-296 | the dual for cold |
| Severity.RisesToReached | thermal/ThermalHelper.cpp:269-274 | a reading at or above the threshold of the previous level or of a higher one leaves at least that level |
| Severity.HoldsReached | thermal/ThermalHelper.cpp:269-278 | with positive hysteresis so does a reading at or above any threshold |
| Severity.ColdRisesToReached | thermal/ThermalHelper.cpp:279-282 | the dual for cold |
| Severity.ColdHoldsReached | thermal/ThermalHelper.cpp:279-286 | the dual for cold |
| Severity.FallsOnlyOutOfBand | thermal/ThermalHelper.cpp:257-296 | the hot severity falls only if the reading is at or below its level's threshold minus hysteresis |
| Severity.FallsIffOutOfBand | thermal/ThermalHelper.cpp:257-296 | with positive, non-overlapping bands exactly then |
| Severity.RisesOnlyByReaching | thermal/ThermalHelper.cpp:257-296 | without overlap the severity rises only to a level whose threshold is reached |
| Severity.RisesByReachingIff | thermal/ThermalHelper.cpp:257-296 | for increasing thresholds, every rise for every reading is to a reached level if and only if no bands overlap |
| Severity.OverlapRisesUnreached | thermal/ThermalHelper.cpp:257-296 | any two overlapping bands have a reading that raises the severity to a level it has not reached |
| Severity.OverlapRaises | thermal/ThermalHelper.cpp:257-296 | a concrete configuration with overlapping bands where a falling reading raises the severity |
| Severity.RepeatIsStableIff | thermal/ThermalHelper.cpp:257-296 | repeating a reading changes nothing unless the previous severity lets it fall below a level it reaches, and then it does |
| Severity.RepeatIsStable | thermal/ThermalHelper.cpp:257-296 | with positive hysteresis repeating a reading never changes the result |
| Severity.KeepsLessThanReachedIff | thermal/ThermalHelper.cpp:257-296 | that exception takes a reading exactly on a threshold with a zero band |
| Severity.ZeroHysteresisFlickers | thermal/utils/config_parser.cpp:126-132 | with the default zero hysteresis a steady reading flickers, on a concrete input |
| Severity.NoFallAfterRise | thermal/ThermalHelper.cpp:257-296 | for non-overlapping bands and any stream of readings closer together than the smallest band, once the hot severity rose it never falls |
| Severity.ColdFallsOnlyOutOfBand | thermal/ThermalHelper.cpp:257-296 | the dual for cold: it falls only at or above threshold plus hysteresis |
| Severity.ColdRisesByReachingIff | thermal/ThermalHelper.cpp:257-296 | the dual for cold of rising only by reaching |
| Severity.ColdRepeatIsStable | thermal/ThermalHelper.cpp:257-296 | the dual for cold of stability under repetition |
| Severity.ColdNoFallAfterRise | thermal/ThermalHelper.cpp:257-296 | the dual for cold of no chatter |
| ThermalSpec.ReportIsChange | thermal/ThermalHelper.cpp:460-516 | a watcher call reports a sensor once with its new severity if that changed and not at all otherwise |
| ThermalSpec.HearsAll | thermal/Thermal.cpp:210-230 | a matching subscriber that does not fail is told exactly the report and stays subscribed |
| ThermalSpec.StoredAt | thermal/ThermalHelper.cpp:467-509 | a watcher call leaves a sensor with the status of its own visit, whatever other sensors are visited |
| ThermalSpec.RunReachable | thermal/ThermalHelper.cpp:494-503 | in every run the stored hot and cold severities are none or levels with thresholds |
| ThermalSpec.StoredFallsOutOfBand | thermal/ThermalHelper.cpp:460-516 | in every run a stored hot severity falls only in a watcher call that visits the sensor with a reading at or below threshold minus hysteresis, and falls at every such reading if the bands are positive and do not overlap; dually for cold |
| ThermalSpec.StepKeepsGood | thermal/Thermal.cpp:143-230 | every step keeps at most one callback per client, and the report under way the difference between the severities announced and stored |
| ThermalSpec.HeardIsChangeLog | thermal/Thermal.cpp:143-230 | in every run, with clients coming and going between storing and sending, what a lasting subscriber hears about a sensor is the sequence of changes of the announced severity |
| ThermalSpec.SubscriberHearsChanges | thermal/Thermal.cpp:143-230 | so what it heard last is the stored severity whenever no report is under way, and two notifications in a row always differ |
| ThermalSpec.ChangeLogFacts | thermal/ThermalHelper.cpp:460-516 | the last entry of a sequence of changes is its end, and neighbours differ |
| ThermalOutcomes.StoredIs | thermal/ThermalHelper.cpp:460-509 | in every run a sensor that is monitored, selected and readable gets the hot and cold severities of its thresholds and the higher of them as its severity; any other keeps its status |
| ThermalOutcomes.AlwaysJoined | thermal/ThermalHelper.cpp:225-227 | in every run the stored severity is the higher of the two remembered ones, so none exactly if both are |
| ThermalOutcomes.StoreReports | thermal/ThermalHelper.cpp:460-516 | in every run a report names, in order, exactly the sensors whose stored severity changed, with their kinds, readings and new severities |
| ThermalOutcomes.HotReadingIsReported | thermal/ThermalHelper.cpp:460-516 | in every run a reading at or above a hot threshold, of the remembered level or higher, leaves at least that severity and is reported unless it was that high already |
| ThermalOutcomes.SendIs | thermal/Thermal.cpp:210-230 | sending keeps exactly the callbacks that took every temperature of their kind, in order |
| ThermalOutcomes.NotifiedIs | thermal/Thermal.cpp:217-229 | a temperature is told, in order, to exactly the callbacks registered for its kind or for all |
| ThermalOutcomes.OthersHearNothing | thermal/Thermal.cpp:217-229 | a client registered for other kinds hears nothing of a sensor |
| ThermalOutcomes.InitialIs | thermal/Thermal.cpp:164-176 | a new callback is told exactly the temperatures of its kind, in order |
| ThermalOutcomes.RegisterIs | thermal/Thermal.cpp:143-179 | a new callback is added last; a client registered already changes nothing |
| ThermalOutcomes.UnregisterIs | thermal/Thermal.cpp:181-208 | exactly the callbacks of the client go |
| ThermalOutcomes.RegisteredHearsChanges | thermal/Thermal.cpp:143-230 | in every run a client hears, from its registration until it leaves or fails, the changes of every sensor of its kind |
| ThermalService.SnapshotIs | thermal/ThermalHelper.cpp:394-412 | the current temperatures are those of exactly the wanted sensors, in order, each with its reading and the severity its thresholds give |
| ThermalService.FilledIff | thermal/ThermalHelper.cpp:394-412 | they can be had if and only if there is a sensor of the kind and every one can be read |
| ThermalService.ThermalHelper.ReadTemperature | thermal/ThermalHelper.cpp:185-230 | a reading is judged by the remembered severities if the sensor is monitored, and fails if the file cannot be read |
| ThermalService.ThermalHelper.VisitSensor | thermal/ThermalHelper.cpp:467-509 | one round: what is reported, what is stored, and whether the sensor counts as triggered |
| ThermalService.ThermalHelper.WatcherCallback | thermal/ThermalHelper.cpp:460-516 | the loop's report and stored severities are the specified ones, and it answers whether a counted sensor has a severity |
| ThermalService.ThermalHelper.FillCurrentTemperatures | thermal/ThermalHelper.cpp:394-412 | succeeds if and only if every sensor of the kind can be read and there is one, with one judged temperature each, in order |
| ThermalService.Thermal.SendOne | thermal/Thermal.cpp:217-229 | the remove_if pass tells every matching callback and keeps exactly those that did not fail |
| ThermalService.Thermal.SendThermalChangedCallback | thermal/Thermal.cpp:210-230 | the callbacks left and the deliveries made for a whole report |
| ThermalService.Thermal.OnWatch | thermal/ThermalHelper.cpp:460-516 | a watcher call is a storing step followed by the sending of its report, and keeps the invariant of the service |
| ThermalService.Thermal.RegisterThermalChangedCallback | thermal/Thermal.cpp:143-179 | succeeds if and only if the callback is set, the service initialised and the callback new; then it is appended and told the present temperatures |
| ThermalService.Thermal.UnregisterThermalChangedCallback | thermal/Thermal.cpp:181-208 | erases the callback, and succeeds if and only if it was registered |
| Cpio.FieldsReadBack | wifi/wifi_chip.cpp:222-228 | the printed fields read back as the numbers printed |
| Cpio.HeaderSize | wifi/wifi_chip.cpp:219-249 | a header ends on a 4-byte boundary |
| Cpio.ReadHeader | wifi/wifi_chip.cpp:219-249 | a reader takes any header apart into its fields, its name and the body announced |
| Cpio.RecordReadsBackIff | wifi/wifi_chip.cpp:219-283 | a record reads back with its whole body, ending where the next starts, if and only if the body is as long as the 32-bit size in the header |
| Cpio.RecordIsAligned | wifi/wifi_chip.cpp:250-283 | a record with a body of the announced size ends on a 4-byte boundary |
| Cpio.TrailerIsHeader | wifi/wifi_chip.cpp:285-297 | the three numbers of the trailer's format are thirteen fields, and its four NULs end the name and pad the header |
| Cpio.TrailerReadsBack | wifi/wifi_chip.cpp:285-297 | the trailer reads back as an empty file of the trailer's name |
| Cpio.NameIsNotTrailer | wifi/wifi_chip.cpp:326-328 | no archived name is the trailer's, since it ends in a digit of the time |
| Cpio.ArchiveReadsBack | wifi/wifi_chip.cpp:300-345 | the archive of any list of files with NUL-free names and announced sizes reads back as exactly that list |
| CpioFormat.HeaderShows | wifi/wifi_chip.cpp:219-228 | the magic, and each attribute of the file in eight digits at its offset: inode at 6, mode 14, user 22, group 30, links 38, time 46, size 54, devices 62 to 86, name length 94 and checksum 102, cut to 32 bits |
| CpioFormat.TextOf | wifi/wifi_chip.cpp:229-249 | the name at offset 110, ended and padded with NULs to a multiple of four bytes |
| CpioFormat.TrailerShows | wifi/wifi_chip.cpp:285-297 | the trailer shows one link, no size and the eleven bytes of its name |
| CpioFormat.NameShows | wifi/wifi_chip.cpp:326-327 | the archived name is the file's own, a hyphen and the modification time, which reads back from its decimal digits, without leading zeros |
| CpioFormat.ArchiveShowsFiles | wifi/wifi_chip.cpp:300-345 | the archive of any storable files reads back as one entry per file, in order, with every attribute, the name and the content |
| CpioWriter.WriteHeader | wifi/wifi_chip.cpp:219-249 | the three writes produce the header, or a failure is reported |
| CpioWriter.CopyContent | wifi/wifi_chip.cpp:252-275 | the read loop copies at least the announced size and less than a buffer more, however short the reads, and reports a file that ends before |
| CpioWriter.WriteFileContent | wifi/wifi_chip.cpp:250-283 | what was copied and the padding, without error if and only if no call failed and the file is long enough |
| CpioWriter.WriteFileTrailer | wifi/wifi_chip.cpp:285-297 | the trailer is written, or a failure is reported |
| CpioWriter.ArchiveFilesInDir | wifi/wifi_chip.cpp:300-345 | without failures the output is the archive of the readable regular files, as far as they were copied, and the result counts the others; any failure or shortened file gives a positive result |
| CpioWriter.WrittenReadsBackIff | wifi/wifi_chip.cpp:250-283 | however the reads go, the record written reads back, if and only if the size fits 32 bits and the file has the size announced or that is zero |
| CpioDirectory.WrittenAre | wifi/wifi_chip.cpp:309-342 | one file is written per regular entry that could be read, in order, with its status, its name and at least the announced size of its content |
| CpioDirectory.SkippedIs | wifi/wifi_chip.cpp:309-324 | the errors counted are one per regular entry that could not be read |
| CpioDirectory.StableDirReadsBack | wifi/wifi_chip.cpp:300-345 | the archive of a directory whose files do not change reads back as its readable regular files, in order, with all attributes and whole |
| Elements.ParseElements | wifi/aidl_struct_util.cpp:600-634 | the loop returns the complete elements at the front of the blob, leaving a truncated one, and fails only without a blob |
| Elements.ParseIsUnique | wifi/aidl_struct_util.cpp:600-634 | a blob has only one such list of elements and one leftover |
| Elements.ParseOfEncoding | wifi/aidl_struct_util.cpp:600-634 | parsing the encoding of any list, with or without a cut-off element behind it, returns exactly that list |
| Elements.ElementAt | wifi/aidl_struct_util.cpp:600-634 | each element stands in the blob at the sum of the sizes before it: id, length, data |
| Layouts.ClearedFacts | wifi/wifi_legacy_hal.cpp:756-786 | the copied header has count zero and is otherwise unchanged |
| Layouts.CopyPeerInfo | wifi/wifi_legacy_hal.cpp:756-771 | copies one peer and its rates and ends exactly behind them |
| Layouts.CopyPeers | wifi/wifi_legacy_hal.cpp:803-821 | walks any list of peers in flat memory and returns exactly that list and its end |
| Layouts.CopyLinkStat | wifi/wifi_legacy_hal.cpp:773-786 | copies one link with all its peers and ends exactly behind them |
| Layouts.CopyLinks | wifi/wifi_legacy_hal.cpp:870-878 | walks any nested list of links, peers and rates and returns exactly that list and the end of the layout |
| Layouts.LinkCopiesDetermine | wifi/wifi_legacy_hal.cpp:756-786 | nothing is lost: layouts with equal copies are equal |
| Layouts.CountReadsBack | wifi/wifi_legacy_hal.cpp:756-786 | a 32-bit count reads back as the number stored, least significant byte first |
| Layouts.RecordCopiesAt | wifi/wifi_legacy_hal.cpp:756-771 | every peer is copied in its place with its rates and its header, the count cleared |
| Layouts.LinkCopiesAt | wifi/wifi_legacy_hal.cpp:773-786 | every link is copied in its place with its peers, the count cleared |
| Layouts.ConvertedAt | wifi/aidl_struct_util.cpp:2993-3034 | every configuration of every combination is converted in its place |
| Layouts.ConvertRadio | wifi/aidl_struct_util.cpp:3007-3032 | converts one radio combination if and only if it has configurations and all convert |
| Layouts.ConvertRadioCombinations | wifi/aidl_struct_util.cpp:2993-3034 | succeeds if and only if there is a combination and all convert, with exactly the nested list, ending at the end of the layout |
| RingBuffers.FittingIsLongest | wifi/ringbuffer.cpp:28-47 | dropping from the front leaves the one suffix that is longest among those within the limit |
| RingBuffers.FittingAfterTrim | wifi/ringbuffer.cpp:28-47 | dropping early or late gives the same contents |
| RingBuffers.RunKeepsLongestFit | wifi/ringbuffer.cpp:28-57 | after any run of appends and clears the contents are the longest fitting suffix of what was accepted since the last clear |
| RingBuffers.NewestIsKept | wifi/ringbuffer.cpp:28-47 | in every run an appended message that is not empty and within the limit is the newest one kept, with the longest fitting suffix before it; any other changes nothing |
| RingBuffers.RingBuffer.Append | wifi/ringbuffer.cpp:28-47 | the statuses for every input, never the corrupted one; the contents are those of the run so far, and the size their total |
| RingBuffers.RingBuffer.Clear | wifi/ringbuffer.cpp:53-57 | nothing is left |
| UsbRoleSwitch.StepKeepsLocks | usb/Usb.cpp:200-251 | every step keeps each lock owned by exactly the thread in a place that holds it |
| UsbRoleSwitch.StepKeepsLog | usb/Usb.cpp:200-251 | every step keeps the undecided switch in the log that of the thread between write and verdict, with the partner flag saying whether one was recorded since |
| UsbRoleSwitch.RunIsGood | usb/Usb.cpp:278-331 | both hold in every interleaving of callers and the uevent thread |
| UsbRoleSwitch.SuccessMeansPartner | usb/Usb.cpp:200-251 | success is reported only if a partner was recorded after that caller's write, with no other write or verdict in between |
| UsbRoleSwitch.SuccessIff | usb/Usb.cpp:226-240 | the verdict after a write is that caller's, and it is success if and only if the wait did not time out in between |
| UsbRoleSwitch.PartnerTooLate | usb/Usb.cpp:230-233 | a run in which a partner is recorded after the time-out and before the verdict, which is failure |
| UsbRoleSwitch.NoResetWhileSwitching | usb/Usb.cpp:594-640 | no port is set back to dual role and no other mode is written between a write and its verdict |
| UsbOutcomes.FailureIsUndone | usb/Usb.cpp:247-331 | in every run a failed mode switch is followed by a reset of the port and then by telling the client of the failure, before the caller gives up the role lock |
| UsbOutcomes.SuccessIsTold | usb/Usb.cpp:247-331 | in every run a successful one is followed by telling the client so, with no reset, before the caller gives up the role lock |
| UsbOutcomes.ResetBeforeNextWrite | usb/Usb.cpp:247-248 | in every run the port is set back before any mode is written again |
| UsbOutcomes.ResetMeansFailure | usb/Usb.cpp:247-248 | in every run a caller resets a port only right after a failure of its own |
| UsbOutcomes.SuccessIsReached | usb/Usb.cpp:200-251 | a run in which a partner comes in time, the client is told and the locks are free again |
| UsbOutcomes.UeventResetIsReached | usb/Usb.cpp:613-633 | a run in which the uevent thread sets a port back while no switch is going on |
| UsbOutcomes.QueryIsReached | usb/Usb.cpp:533-565 | a run in which a query of the ports holds the callback lock and no other |
| UsbOutcomes.RoleSwitchIsTold | usb/Usb.cpp:291-331 | runs in which another role is switched and the client told of either outcome |
| UsbRoleSwitch.CanAlwaysDrain | usb/Usb.cpp:278-331 | from every state that satisfies the invariant some schedule lets all threads finish |
| UsbRoleSwitch.NoReachableDeadlock | usb/Usb.cpp:278-331 | so no reachable state is deadlocked on the three locks |
| CaptureBuffers.AcquireBalancedIff | screen_source/v4l2_vdin.cpp:771-786 | acquiring keeps each buffer queued with count 0 or the client's with count 1 if and only if no consumer flag is set |
| CaptureBuffers.WorkBalancedIff | screen_source/v4l2_vdin.cpp:1036-1100 | the worker keeps that balance if and only if exactly one consumer gets the frame: a window that works, or a callback that is delivered to |
| CaptureBuffers.WorkLeaksIff | screen_source/v4l2_vdin.cpp:1062-1083 | the buffer is left with neither driver nor client if and only if the window fails, or the callback as the only consumer is not delivered to |
| CaptureBuffers.FailingWindowLeaksAll | screen_source/v4l2_vdin.cpp:1060-1083 | a run in which a failing window leaks any number of buffers, up to all |
| CaptureBuffers.StepBalancedIff | screen_source/v4l2_vdin.cpp:764-867 | a step of acquire, release or worker keeps the balance if and only if its frame reaches one consumer |
| CaptureBuffers.ReleaseKeepsBalance | screen_source/v4l2_vdin.cpp:837-867 | a release keeps the balance, never queues a buffer twice, and a second release does nothing |
| CaptureBuffers.FrameReturns | screen_source/v4l2_vdin.cpp:764-867 | a buffer that is acquired or delivered is the client's with count one, and everything is as before after its release; one that was shown is back at once |
| CaptureBuffers.FrameIsLost | screen_source/v4l2_vdin.cpp:1036-1100 | what every other round leaves: counts, queue and client, for every combination of consumers and failures |
| CaptureBuffers.BothConsumersQueueTwice | screen_source/v4l2_vdin.cpp:1060-1096 | with both consumers the client's release queues a buffer the driver already has |
| CaptureBuffers.RunStaysBalanced | screen_source/v4l2_vdin.cpp:764-867 | in every run whose frames reach one consumer each, every buffer is the driver's with count 0 or the client's with count 1, and no release queues twice |
| CaptureBuffers.VdinSource.Start | screen_source/v4l2_vdin.cpp:303-337 | all counts are zero, all buffers queued and none handed out |
| CaptureBuffers.VdinSource.AcquireBuffer | screen_source/v4l2_vdin.cpp:771-786 | the address of the buffer taken; the balance is kept if and only if no consumer flag is set |
| CaptureBuffers.VdinSource.ReleaseBuffer | screen_source/v4l2_vdin.cpp:837-867 | from balance, the buffer at that address ends queued once, balance is kept and a second release changes nothing |
| CaptureBuffers.VdinSource.WorkThread | screen_source/v4l2_vdin.cpp:1036-1100 | one round of the worker keeps the balance if and only if exactly one consumer gets the frame, for every combination of consumers and failures |

## Left out

- Services that are thin wrappers (boot control, fastboot, gatekeeper, keymaster, lights, IR, health, dumpstate) and all binder registration: only easy members.
- Enum conversions, NAN request conversions and field-by-field copies of link layer statistics: settled branch by branch.
- The radio statistics part of the link layer callback: it repeats the walker with one more separately stored array.
- The fixed access point names of the dual-interface build flag: the allocating branch is modelled.
- Several legacy HALs sharing the global stop callback: one HAL is modelled, and only the chip of that HAL is configured.
- Short writes to the archive's descriptor: a write succeeds as a whole or fails.
- The byte offsets and sizes of the vendor structures: `Layouts` holds for all of them; the conversion of one radio configuration is a parameter.
- `Usb::setCallback` without a callback, which joins the worker while holding a lock: not part of the deadlock statement.
- A root `stop` that fails because the firmware mode controller cannot be deinitialised, and the callbacks the root object notifies: settled branch by branch.
- Condition signals of the role switch: a waiter may wake at any time, which includes being signalled.
- Failing queue calls of the capture driver, and the copying of frames: a successful call is assumed.
- Configuring a chip is one step of `ChipSpec` and `WifiRoot`, although the stop inside it gives up the lock.
- Expand: its contract asks for non-empty type lists and for counts within 32 bits, because the code divides by the one and counts in the other; `MatrixExpandsIff` says when the driver's matrix gives the first.
- LiveAlwaysFits: the modes a chip starts with are asked to be expandable, because a positive limit without types makes the code divide by zero; for the driver's matrix this is a condition on the call.
- NoFallAfterRise: thresholds are increasing only as far as non-overlapping bands make them so; no other order is asked for.
- ConvertRadioCombinations: counts are read as unsigned; a matrix with 2^31 or more entries, which the code's signed loops skip, is not modelled.
- LegacyHal and WifiRoot and UsbRoleSwitch: the fields are values of a step system, not of a class; aliasing of the shared objects is not captured.
- Identity of interface objects handed to clients: interfaces are known by type and name.
- Real time: a time-out is a step that may be taken whenever a thread waits.
