# save-config-pro, modelled in Dafny

save-config-pro is a desktop tool that keeps backups of the configurations of network
equipment and restores them. The equipment is Cisco (IOS and ASA), MikroTik (RouterOS)
and Fortinet (FortiOS). An administrator scans the local networks for devices and records
each device in a per-vendor registry (`cisco_save.json`, `mikrotik_save.json`,
`fortinet_save.json`). A scheduler then runs backup cycles at a fixed interval. Every
cycle, a per-vendor script validates each device: ping, ARP MAC, SSH login. The script
groups the devices by subnet or FTP server and writes an Ansible workspace for each group:
`inventory.ini`, `ansible.cfg` and a playbook. The playbooks copy the configurations to
the FTP server on the host. A restore screen writes the same kind of workspace for one
device and one configuration file. Three history screens show the backup log, the restore
journal and the connection history. Accounts are created, enabled and edited from a login
screen and a user administration screen.

The model covers that bookkeeping. JSON files are values held in the fields of the
objects that own them. The probes, the clock and the password hash are inputs.

| file | module | what it models |
|---|---|---|
| common.dfy, dict.dfy, text.dfy | Common, Dict, Text | Option, Result, the state of a JSON file (`Stored`: missing, unreadable, of the wrong kind, parsed), Python's ordered dict as a list of pairs, the string operations the code uses |
| stamps.dfy | Stamps | the stored (`%Y-%m-%d %H:%M:%S`), shown (`%d/%m/%Y %H:%M`) and file-name (`%Y-%m-%d_%H-%M-%S`) timestamp forms, read back |
| ipv4.dfy | Ipv4 | prefix masks on 32-bit values, first-match subnet and FTP-server lookups, the table of local FTP addresses |
| registry.dfy, probes.dfy, workspace.dfy | Registry, Probes, Workspace | device records, MAC spellings, the parsing of ARP output, the Ansible directories the scheduler can run |
| scheduler.dfy | Scheduler | `BackupSchedulerManager` of `plannification.py`: interval, countdown, start and stop, the operation log, the device snapshot, one backup cycle |
| scan.dfy | Scan | `scan_network.py`: the nmap parser, merging by IP, the ✔️/⚠️/❌ status, the inventory edit, registry upsert and delete |
| restoration.dfy | Restoration | `saverestauration.py`: type normalisation, the restore journal, inventory parsing, the backup status rows |
| saved_networks.dfy | SavedNetworks | `network_enregistres.py`: saved subnets against the live interfaces, subnet removal |
| backup_cisco.dfy, backup_mikrotik.dfy, backup_fortinet.dfy | BackupCisco, BackupMikrotik, BackupFortinet | the three backup scripts: validation, bucketing, inventories and workspaces, the rewritten registry |
| restore_files.dfy | RestoreFiles | `scr_restore.py`: FTP address choice, dispatch on the device type, the three files of a restore workspace |
| history_backups.dfy, history_restores.dfy, history_users.dfy | BackupHistory, RestoreHistory, UserHistory | the three history screens: rows, the double click, deletions |
| accounts.dfy, auth.dfy, users.dfy | Accounts, Auth, UserAdmin | `auth.py` and `users.py`: login, sign-up, connection records, counts, toggle, edit, delete |
| vsftpd.dfy | Vsftpd | `update_vsftpd_conf` of `menu_universel.py`: the `key=value` rewrite of the vsftpd configuration |

Where the code and its documentation disagree, the model follows the code:
- `stop` on a stopped scheduler is not a no-op. It still cleans the working folders,
  patches the log and resets the registries.
- The device snapshot reads the three vendor registries the code names, not five.
- The Fortinet script exits before writing `fortinet_save.json` when no device
  validates, so the failed flags of that run are not saved.

## Model

| member | source | states |
|---|---|---|
| Scheduler.PyMod | save-config-pro_1.0-1/opt/save-config-pro/view/plannification.py:65 | Python's modulo: the result lies in 0..b-1 for a positive divisor and in b+1..0 for a negative one |
| Scheduler.ResumedRemainingRange | save-config-pro_1.0-1/opt/save-config-pro/view/plannification.py:62-65 | the countdown resumed after a restart lies in 1..interval for a positive interval and is 0 for a negative one |
| Scheduler.Decompose | save-config-pro_1.0-1/opt/save-config-pro/view/plannification.py:137-144 | days, hours (0..23), minutes (0..59) and seconds (0..59) recombine to the total number of seconds |
| Scheduler.TickCycle | save-config-pro_1.0-1/opt/save-config-pro/view/plannification.py:428-431 | a tick keeps the countdown in 0..interval; after k ticks it reads remaining-k, and after remaining+1 ticks it is back at the full interval |
| Scheduler.SnapshotMembership | save-config-pro_1.0-1/opt/save-config-pro/view/plannification.py:209-213 | an element is in a file's snapshot exactly when some record with a true status and a MAC produced it |
| Scheduler.SnapshotAppend | save-config-pro_1.0-1/opt/save-config-pro/view/plannification.py:209-213 | the snapshot of two record lists is the concatenation of their snapshots |
| Scheduler.ActiveEquipmentEmpty | save-config-pro_1.0-1/opt/save-config-pro/view/plannification.py:192-217 | the active equipment list is empty exactly when none of the cisco, mikrotik and fortinet files holds an eligible record |
| Scheduler.GetActiveMacs | save-config-pro_1.0-1/opt/save-config-pro/view/plannification.py:192-217 | the loop over the three files returns the concatenated snapshots, skipping missing and unreadable files |
| Scheduler.MarkLastEffect | save-config-pro_1.0-1/opt/save-config-pro/view/plannification.py:173-190 | marking the log changes at most the last entry, and only its status, from "en_cours" to "succes" or "echec" |
| Scheduler.MarkLastIdempotent | save-config-pro_1.0-1/opt/save-config-pro/view/plannification.py:182-185 | only the first mark after a start has an effect |
| Scheduler.CloseLastEffect | save-config-pro_1.0-1/opt/save-config-pro/view/plannification.py:260-292 | closing the log sets only the last entry's date_fin, and only when it was absent or null; other entries and the status stay |
| Scheduler.CloseLastIdempotent | save-config-pro_1.0-1/opt/save-config-pro/view/plannification.py:280-282 | a second close keeps the first close's date |
| Scheduler.ResetRecords | save-config-pro_1.0-1/opt/save-config-pro/view/plannification.py:251-252 | every record of a registry gets sauvegarde false and nothing else changes |
| Scheduler.ResetRegistries | save-config-pro_1.0-1/opt/save-config-pro/view/plannification.py:238-258 | the mikrotik, cisco and fortinet registries that parse are reset; the others are unchanged |
| Scheduler.CleanFolders | save-config-pro_1.0-1/opt/save-config-pro/view/plannification.py:294-313 | every existing working folder is emptied and other folders are kept |
| Scheduler.StopFilesIdempotent | save-config-pro_1.0-1/opt/save-config-pro/view/plannification.py:219-236 | a second stop leaves folders, log and registries as the first stop left them |
| Scheduler.RunsInMembership | save-config-pro_1.0-1/opt/save-config-pro/view/plannification.py:331-345 | a playbook runs for a sub-directory exactly when it is a directory holding both inventory.ini and the folder's playbook |
| Scheduler.RunsInIndependent | save-config-pro_1.0-1/opt/save-config-pro/view/plannification.py:358-377 | which sub-directories of one folder run does not depend on the outcome of any run |
| Scheduler.CycleRunsIndependent | save-config-pro_1.0-1/opt/save-config-pro/view/plannification.py:322-379 | a failed or timed-out run does not stop the later runs of the cycle |
| Scheduler.DirsAppend | save-config-pro_1.0-1/opt/save-config-pro/view/plannification.py:331 | the directories of two run lists concatenate |
| Scheduler.RunsInAppend | save-config-pro_1.0-1/opt/save-config-pro/view/plannification.py:331 | the runs of a listing split at any point concatenate |
| Scheduler.BackupSchedulerManager.Config | save-config-pro_1.0-1/opt/save-config-pro/view/plannification.py:72-82 | the saved configuration carries a start time only while running |
| Scheduler.BackupSchedulerManager.constructor | save-config-pro_1.0-1/opt/save-config-pro/view/plannification.py:18-70 | initial values; a parsed configuration is loaded, with the resumed countdown when running and started, and an unreadable one keeps the initial values |
| Scheduler.BackupSchedulerManager.SetCurrentUser | save-config-pro_1.0-1/opt/save-config-pro/view/plannification.py:42-44 | the current user is the one given |
| Scheduler.BackupSchedulerManager.SaveConfig | save-config-pro_1.0-1/opt/save-config-pro/view/plannification.py:72-89 | the configuration file holds the current configuration |
| Scheduler.BackupSchedulerManager.SetDuration | save-config-pro_1.0-1/opt/save-config-pro/view/plannification.py:91-100 | the four fields are set without validation, interval and countdown are the total in seconds, and the configuration is saved |
| Scheduler.BackupSchedulerManager.Tick | save-config-pro_1.0-1/opt/save-config-pro/view/plannification.py:423-431 | while running the countdown steps down or restarts from the interval; stopped, nothing changes |
| Scheduler.BackupSchedulerManager.GetTime | save-config-pro_1.0-1/opt/save-config-pro/view/plannification.py:440-447 | the remaining time as days, hours, minutes and seconds in range, recombining to the countdown |
| Scheduler.BackupSchedulerManager.Start | save-config-pro_1.0-1/opt/save-config-pro/view/plannification.py:102-171 | a non-positive interval, a running scheduler and an empty equipment list each stop start with nothing changed; start succeeds exactly when the interval is positive, the scheduler is stopped and some device is eligible, and then exactly one new "en_cours" entry is appended to the log, the scheduler runs and the first tick happens |
| Scheduler.BackupSchedulerManager.Begin | save-config-pro_1.0-1/opt/save-config-pro/view/plannification.py:122-171 | the log gains the new entry after whatever list it held, the state is running with the start time, the configuration is saved and the countdown ticks once |
| Scheduler.BackupSchedulerManager.Stop | save-config-pro_1.0-1/opt/save-config-pro/view/plannification.py:219-236 | the state is cleared and saved, and the folders, log and registries are cleaned, closed and reset, even when already stopped |
| Scheduler.BackupSchedulerManager.RunCycle | save-config-pro_1.0-1/opt/save-config-pro/view/plannification.py:315-388 | a cycle already in progress does nothing; otherwise every runnable sub-directory runs in folder and listing order whatever the outcomes, and the log is marked as success once a working folder exists |
| Scheduler.RunFolder | save-config-pro_1.0-1/opt/save-config-pro/view/plannification.py:331-377 | the loop over one folder's listing runs exactly the runnable sub-directories, in order |
| Scan.StripParens | save-config-pro_1.0-1/opt/save-config-pro/view/scan_network.py:38 | stripping the parentheses leaves no parenthesis at either end of the address |
| Scan.MacLines | save-config-pro_1.0-1/opt/save-config-pro/view/scan_network.py:36-39 | the positions of the lines holding "MAC Address", strictly increasing and within the output |
| Scan.NmapDevices | save-config-pro_1.0-1/opt/save-config-pro/view/scan_network.py:33-53 | every device the parser appends carries the network that was scanned |
| Scan.LastReport | save-config-pro_1.0-1/opt/save-config-pro/view/scan_network.py:36-38 | the last "Nmap scan report for" line, with no report line after it, or -1 when there is none |
| Scan.IpAfterMeaning | save-config-pro_1.0-1/opt/save-config-pro/view/scan_network.py:35-38 | the address the parser holds after a prefix is the one of the latest report line, None before the first |
| Scan.NmapDevicesMeaning | save-config-pro_1.0-1/opt/save-config-pro/view/scan_network.py:36-53 | one device per MAC line, in output order, with that line's third word (or "inconnu") and the address of the latest report line before it |
| Scan.ParseNmap | save-config-pro_1.0-1/opt/save-config-pro/view/scan_network.py:33-53 | the parsing loop yields exactly the devices described by NmapDevices |
| Scan.ScanAllNetworks | save-config-pro_1.0-1/opt/save-config-pro/view/scan_network.py:63-70 | every device found by a multi-network scan comes from one of the scanned networks |
| Scan.LastWithIp | save-config-pro_1.0-1/opt/save-config-pro/view/scan_network.py:120 | none exactly when no device has the address; otherwise a device of the list with that address |
| Scan.LastWithIpIsLast | save-config-pro_1.0-1/opt/save-config-pro/view/scan_network.py:120 | the device the dict comprehension keeps is the last one with that address |
| Scan.MergeDictMeaning | save-config-pro_1.0-1/opt/save-config-pro/view/scan_network.py:120-121 | the merged dict has distinct addresses, each value has its key as address, and the value for an address is the last device with it |
| Scan.GroupedMeaning | save-config-pro_1.0-1/opt/save-config-pro/view/scan_network.py:72-121 | the grouped devices have pairwise distinct addresses, each was detected by some vendor scan, and every detected address is kept with its last detected device |
| Scan.FunctionsScanner.constructor | save-config-pro_1.0-1/opt/save-config-pro/view/scan_network.py:18-20 | the scanner starts with an empty equipment list |
| Scan.FunctionsScanner.ScanNetwork | save-config-pro_1.0-1/opt/save-config-pro/view/scan_network.py:22-61 | a failed run returns [] and leaves the list; a successful one returns the parsed devices and appends them to the list |
| Scan.FunctionsScanner.ScanMultipleNetworks | save-config-pro_1.0-1/opt/save-config-pro/view/scan_network.py:63-70 | the list is reset, then holds exactly the concatenated results of the networks, and is returned |
| Scan.FunctionsScanner.FilterAllDevicesGrouped | save-config-pro_1.0-1/opt/save-config-pro/view/scan_network.py:112-121 | the result is the grouping of the accumulated list, with pairwise distinct addresses |
| Scan.FirstWithMac | save-config-pro_1.0-1/opt/save-config-pro/view/scan_network.py:263 | none exactly when no saved record has the MAC; otherwise the earliest record with it |
| Scan.Classify | save-config-pro_1.0-1/opt/save-config-pro/view/scan_network.py:263-270 | a device is unknown exactly when no record has its MAC, the same when the first such record has its address, moved when it has another |
| Scan.UpdateTable | save-config-pro_1.0-1/opt/save-config-pro/view/scan_network.py:253-274 | one row per displayed device, in order, with its MAC, address, "Connecté" and the status of Classify, and the count shown equals the number of devices |
| Scan.RemoveMacLinesMeaning | save-config-pro_1.0-1/opt/save-config-pro/view/scan_network.py:380-386 | reading the rewritten inventory back gives exactly the original lines whose stripped form does not start with the MAC, in order |
| Scan.NoEmptySectionLeft | save-config-pro_1.0-1/opt/save-config-pro/view/scan_network.py:392 | after the regular-expression cleanup no header is left that is followed by another header or by the end of the text |
| Scan.CleanedBase | save-config-pro_1.0-1/opt/save-config-pro/view/scan_network.py:373-394 | the cleaning pass keeps every folder and rewrites each inventory as RemoveMacLines then the cleanup |
| Scan.CleanInventories | save-config-pro_1.0-1/opt/save-config-pro/view/scan_network.py:373-394 | the loop over the folders produces CleanedBase |
| Scan.WithHeader | save-config-pro_1.0-1/opt/save-config-pro/view/scan_network.py:416-417 | after the header check the content contains the section header |
| Scan.LineIndex | save-config-pro_1.0-1/opt/save-config-pro/view/scan_network.py:422 | the first position of a line equal to the header, or the number of lines when there is none |
| Scan.PlaceLineMeaning | save-config-pro_1.0-1/opt/save-config-pro/view/scan_network.py:420-423 | the inserted line is the only one starting with the MAC, it sits just after the first header line or last, and the other lines are the kept ones in order |
| Scan.InventoryLineStartsWithMac | save-config-pro_1.0-1/opt/save-config-pro/view/scan_network.py:401-405 | the new inventory line starts with the MAC, so the next removal pass deletes it |
| Scan.KeepLines | save-config-pro_1.0-1/opt/save-config-pro/view/scan_network.py:421 | the filter loop keeps exactly the lines that do not start with the MAC |
| Scan.FindInsertPosition | save-config-pro_1.0-1/opt/save-config-pro/view/scan_network.py:422 | the header search finds the position right after the first header line, or the end |
| Scan.EditLines | save-config-pro_1.0-1/opt/save-config-pro/view/scan_network.py:420-423 | the edit of the content lines is the filter, the header search and the insertion |
| Scan.MacIndex | save-config-pro_1.0-1/opt/save-config-pro/view/scan_network.py:445-450 | the first position of a record with the MAC, or the length of the list |
| Scan.SavedRecord | save-config-pro_1.0-1/opt/save-config-pro/view/scan_network.py:433-443 | the stored record carries the device's MAC and address, status and sauvegarde false, no subnet or FTP server, and a null enable password exactly when none was entered |
| Scan.Upserted | save-config-pro_1.0-1/opt/save-config-pro/view/scan_network.py:445-454 | the first record with the MAC is replaced and the rest kept in place, else the record is appended |
| Scan.Upsert | save-config-pro_1.0-1/opt/save-config-pro/view/scan_network.py:445-454 | updated exactly when some record has the MAC, and the registry becomes Upserted |
| Scan.RemoveMacMeaning | save-config-pro_1.0-1/opt/save-config-pro/view/scan_network.py:497 | the deletion keeps exactly the records with another MAC |
| Scan.FolderKey | save-config-pro_1.0-1/opt/save-config-pro/view/scan_network.py:397 | the folder name has the address's length and no dot |
| Scan.SavedBaseMeaning | save-config-pro_1.0-1/opt/save-config-pro/view/scan_network.py:396-426 | the save rewrites the device's own folder inventory and leaves every other folder unchanged |
| Scan.SaveInventory | save-config-pro_1.0-1/opt/save-config-pro/view/scan_network.py:371-430 | the inventory step fails exactly when the address is missing or its folder name is taken by a file, leaving the removal pass done; otherwise the folders are the removal pass plus the rewritten own inventory |
| Scan.SaveOrUpdate | save-config-pro_1.0-1/opt/save-config-pro/view/scan_network.py:360-461 | missing name, user or password changes nothing; an inventory failure leaves the registry; otherwise the registry is Upserted with the new record and "updated" says whether the MAC was there |
| Scan.DeleteEquipment | save-config-pro_1.0-1/opt/save-config-pro/view/scan_network.py:464-503 | both passes run over every inventory. The registry read again is rewritten exactly when it is absent (giving []) or parses with a MAC in every record, and then keeps exactly the records with another MAC. An unreadable registry or a record without a MAC raises, and the file is not rewritten |
| Restoration.Normalise | save-config-pro_1.0-1/opt/save-config-pro/view/saverestauration.py:303-307 | none exactly when no key of the table occurs in the type; otherwise the vendor of the first key that occurs |
| Restoration.FirstWithIp | save-config-pro_1.0-1/opt/save-config-pro/view/saverestauration.py:339 | none exactly when no record has the address; otherwise the first record that has it |
| Restoration.LookupDevice | save-config-pro_1.0-1/opt/save-config-pro/view/saverestauration.py:326-345 | the device keeps the given address and type; with no record at that address mac and name are "inconnu" and the system the caller's; otherwise mac, name and system come from the first such record, each defaulting when absent |
| Restoration.ExecuteRestore | save-config-pro_1.0-1/opt/save-config-pro/view/saverestauration.py:281-429 | an unknown type or a failed generation leaves the journal alone; otherwise one "succès" entry is appended to the journal as read, and a failure after that appends one "échec" entry as well |
| Restoration.Add | save-config-pro_1.0-1/opt/save-config-pro/view/saverestauration.py:645-650 | after the add a pair is listed exactly when it was listed before or is the one added under that FTP address and vendor |
| Restoration.ParseInventoryLineMeaning | save-config-pro_1.0-1/opt/save-config-pro/view/saverestauration.py:637-643 | blank, comment and section lines are skipped; a host's MAC is its first token with colons, upper-cased; a line without ansible_host= has the address "N/A"; only a line with it can raise |
| Restoration.HostPairsMeaning | save-config-pro_1.0-1/opt/save-config-pro/view/saverestauration.py:637-650 | a pair is collected exactly when some line parses to a host with that pair |
| Restoration.AddParsed | save-config-pro_1.0-1/opt/save-config-pro/view/saverestauration.py:636-650 | reading one inventory raises exactly when one of its lines raises; otherwise the pairs listed are the old ones plus the host pairs under that FTP address and vendor |
| Restoration.DirPairsMeaning | save-config-pro_1.0-1/opt/save-config-pro/view/saverestauration.py:621-650 | a pair is listed for an FTP address exactly when some directory named after that address lists it |
| Restoration.AddEntry | save-config-pro_1.0-1/opt/save-config-pro/view/saverestauration.py:621-650 | one entry of a backup directory adds exactly its own pairs |
| Restoration.AddEntries | save-config-pro_1.0-1/opt/save-config-pro/view/saverestauration.py:621-650 | the entries of a backup directory add exactly the pairs of every directory named after each FTP address |
| Restoration.AddVendors | save-config-pro_1.0-1/opt/save-config-pro/view/saverestauration.py:614-650 | walking the vendors adds, for each vendor with a backup directory, exactly that directory's pairs |
| Restoration.AddVendorsNone | save-config-pro_1.0-1/opt/save-config-pro/view/saverestauration.py:614-650 | once a vendor's inventory raises, the whole walk raises |
| Restoration.AddEntriesNone | save-config-pro_1.0-1/opt/save-config-pro/view/saverestauration.py:621-650 | once an inventory of a directory raises, the whole directory raises |
| Restoration.Inventory | save-config-pro_1.0-1/opt/save-config-pro/view/saverestauration.py:610-650 | in the finished inventory a pair is listed under an FTP address and vendor exactly when that vendor's backup directory lists it for that address |
| Restoration.ReadInventory | save-config-pro_1.0-1/opt/save-config-pro/view/saverestauration.py:635-650 | the loop over one inventory's lines computes AddParsed |
| Restoration.ReadBackupDir | save-config-pro_1.0-1/opt/save-config-pro/view/saverestauration.py:621-650 | the loop over one backup directory computes AddEntries |
| Restoration.ReadBackups | save-config-pro_1.0-1/opt/save-config-pro/view/saverestauration.py:614-650 | the loop over the vendors computes Inventory |
| Restoration.RowFor | save-config-pro_1.0-1/opt/save-config-pro/view/saverestauration.py:669-694 | the row shows the name (default "Inconnu"), address (default "N/A") and vendor, and is ✔️ exactly when the MAC is in the inventory of the record's FTP server and the address answers, ❌ otherwise |
| Restoration.Active | save-config-pro_1.0-1/opt/save-config-pro/view/saverestauration.py:665-667 | only records with a truthy status, taken from the file |
| Restoration.VendorRows | save-config-pro_1.0-1/opt/save-config-pro/view/saverestauration.py:665-694 | one row per active record |
| Restoration.VendorRowsAt | save-config-pro_1.0-1/opt/save-config-pro/view/saverestauration.py:665-694 | row k of a vendor file is the row of its k-th active record |
| Restoration.RowsOfErr | save-config-pro_1.0-1/opt/save-config-pro/view/saverestauration.py:656-699 | once a vendor file holds JSON that is not a list, the whole task raises with the error of that file |
| Restoration.RowForMeaning | save-config-pro_1.0-1/opt/save-config-pro/view/saverestauration.py:610-694 | a record is marked saved exactly when it has an FTP server, some inventory in its vendor's backup directory named after that server lists its MAC, and it answers the ping |
| Restoration.LoadStatusRows | save-config-pro_1.0-1/opt/save-config-pro/view/saverestauration.py:596-701 | the worker of load_data_with_loading computes the inventory and then the rows of the vendor files in table order, or fails |
| Restoration.ReadVendorFile | save-config-pro_1.0-1/opt/save-config-pro/view/saverestauration.py:665-694 | the loop over one vendor file yields VendorRows |
| Restoration.LoadRecords | save-config-pro_1.0-1/opt/save-config-pro/view/saverestauration.py:430-437 | no path, a missing file or undecodable JSON give [], a list is returned as read, and only JSON of another shape is something else |
| Restoration.FindEquipment | save-config-pro_1.0-1/opt/save-config-pro/view/saverestauration.py:439-443 | none exactly when no record has that name and address; otherwise the first record with both |
| Restoration.DetailsMac | save-config-pro_1.0-1/opt/save-config-pro/view/saverestauration.py:40-42 | the MAC of the found record, or "inconnu" when there is no record or it has no MAC |
| SavedNetworks.Tag | save-config-pro_1.0-1/opt/save-config-pro/view/network_enregistres.py:155-156 | each address of an interface is visited with that interface's name, in order |
| SavedNetworks.LiveRowsAppend | save-config-pro_1.0-1/opt/save-config-pro/view/network_enregistres.py:155-168 | the first loop's rows over two runs of addresses are the rows of each run, concatenated |
| SavedNetworks.LiveRowMeaning | save-config-pro_1.0-1/opt/save-config-pro/view/network_enregistres.py:156-168 | an address contributes a row exactly when its network is saved, and that row is the network, interface, address and ✔️ |
| SavedNetworks.LiveRowsMeaning | save-config-pro_1.0-1/opt/save-config-pro/view/network_enregistres.py:155-168 | a row is shown by the first loop exactly when its subnet is saved and some visited eligible address has that network |
| SavedNetworks.Current | save-config-pro_1.0-1/opt/save-config-pro/view/network_enregistres.py:171-175 | the comprehension raises exactly when an eligible address has no network; otherwise it lists exactly the networks of the eligible addresses |
| SavedNetworks.DownRowsMeaning | save-config-pro_1.0-1/opt/save-config-pro/view/network_enregistres.py:177-180 | a ❌ row with "N/A" is shown exactly for a saved subnet that is not current |
| SavedNetworks.NetworkRows | save-config-pro_1.0-1/opt/save-config-pro/view/network_enregistres.py:147-183 | the count reported equals the number of rows |
| SavedNetworks.UpDownExclusive | save-config-pro_1.0-1/opt/save-config-pro/view/network_enregistres.py:147-183 | no saved subnet is shown both as up and as down |
| SavedNetworks.LiveRowsUp | save-config-pro_1.0-1/opt/save-config-pro/view/network_enregistres.py:155-168 | every row of the first loop is marked ✔️ and shows a current network |
| SavedNetworks.DownRowsDown | save-config-pro_1.0-1/opt/save-config-pro/view/network_enregistres.py:177-180 | every row of the second loop is marked ❌ and shows a subnet that is not current |
| SavedNetworks.FirstIndex | save-config-pro_1.0-1/opt/save-config-pro/view/network_enregistres.py:211 | the position of the first occurrence |
| SavedNetworks.RemoveFirst | save-config-pro_1.0-1/opt/save-config-pro/view/network_enregistres.py:211 | list.remove: only the first occurrence goes, so the multiset loses exactly one copy; an absent value leaves the list |
| SavedNetworks.Screen.constructor | save-config-pro_1.0-1/opt/save-config-pro/view/network_enregistres.py:14-19 | the screen starts with an empty list |
| SavedNetworks.Screen.LoadNetworks | save-config-pro_1.0-1/opt/save-config-pro/view/network_enregistres.py:134-139 | a missing file gives [], a list is taken as read, and anything that does not load raises and keeps the list |
| SavedNetworks.Screen.RemoveSubnet | save-config-pro_1.0-1/opt/save-config-pro/view/network_enregistres.py:208-213 | a listed subnet loses its first occurrence and the list is saved; an unlisted one changes nothing |
| SavedNetworks.Screen.InsertData | save-config-pro_1.0-1/opt/save-config-pro/view/network_enregistres.py:147-183 | the worker of insert_data yields NetworkRows of the interfaces and the saved list |
| SavedNetworks.Screen.ScanAddresses | save-config-pro_1.0-1/opt/save-config-pro/view/network_enregistres.py:156-168 | the inner loop over one interface appends exactly its live rows and keeps the count equal to the rows |
| SavedNetworks.Screen.AddDownRows | save-config-pro_1.0-1/opt/save-config-pro/view/network_enregistres.py:177-180 | the second loop appends exactly the down rows and keeps the count equal to the rows |
| Ipv4.PrefixZeroMatchesAll | save-config-pro_1.0-1/opt/save-config-pro/view/composants/scr_backup_cisco.py:15 | a /0 subnet has mask 0 and contains every address |
| Ipv4.PrefixFullMatchesExact | save-config-pro_1.0-1/opt/save-config-pro/view/composants/scr_backup_cisco.py:15 | a /32 subnet has the full mask and contains only its own address |
| Ipv4.FirstSubnet | save-config-pro_1.0-1/opt/save-config-pro/view/composants/scr_backup_cisco.py:84-92 | none exactly when no subnet contains the address; otherwise the first subnet in list order that contains it |
| Ipv4.SubnetIndex | save-config-pro_1.0-1/opt/save-config-pro/view/composants/scr_backup_cisco.py:86-91 | the position of the first subnet containing the address, or the length |
| Ipv4.LocalAddressIn | save-config-pro_1.0-1/opt/save-config-pro/view/composants/scr_backup_cisco.py:12-26 | some local address exactly when an IPv4 address of the host lies in the subnet, and then the first one |
| Ipv4.LocalIndex | save-config-pro_1.0-1/opt/save-config-pro/view/composants/scr_backup_cisco.py:20-25 | the position of the first IPv4 host address inside the subnet, or the length |
| Ipv4.FtpMapMeaning | save-config-pro_1.0-1/opt/save-config-pro/view/composants/scr_backup_cisco.py:34-38 | the mapping has each subnet once, maps it to its non-empty local address, and holds every listed subnet that has one |
| Ipv4.MapWithMeaning | save-config-pro_1.0-1/opt/save-config-pro/view/composants/scr_backup_cisco.py:34-38 | the same for any way of finding the local address |
| Ipv4.BuildFtpMap | save-config-pro_1.0-1/opt/save-config-pro/view/composants/scr_backup_cisco.py:34-38 | the mapping loop computes FtpMap |
| Ipv4.FirstFtpServer | save-config-pro_1.0-1/opt/save-config-pro/view/composants/scr_backup_fortinet.py:88-97 | none exactly when no subnet of the mapping contains the address; otherwise the server of the first one that does |
| Ipv4.ServerIndex | save-config-pro_1.0-1/opt/save-config-pro/view/composants/scr_backup_fortinet.py:89-96 | the position of the first mapping entry whose subnet contains the address, or the length |
| Stamps.Stored | save-config-pro_1.0-1/opt/save-config-pro/view/auth.py:324 | the stored timestamp text has 19 characters |
| Stamps.FileStamp | save-config-pro_1.0-1/opt/save-config-pro/view/composants/scr_backup_cisco.py:99 | the file-name timestamp has 19 characters |
| Stamps.Shown | save-config-pro_1.0-1/opt/save-config-pro/view/historique_sauvegardes.py:111 | the displayed timestamp has 16 characters |
| Stamps.ParseStored | save-config-pro_1.0-1/opt/save-config-pro/view/historique_sauvegardes.py:111 | the parse succeeds exactly on texts of the stored shape whose fields make a valid moment, and then yields a valid moment |
| Stamps.ParseShown | save-config-pro_1.0-1/opt/save-config-pro/view/historique_sauvegardes.py:148 | a parse of the displayed form yields a valid moment with zero seconds |
| Stamps.ParseStoredRoundTrip | save-config-pro_1.0-1/opt/save-config-pro/view/historique_sauvegardes.py:111 | reading a stored timestamp back gives the same moment |
| Stamps.ParseStoredCanonical | save-config-pro_1.0-1/opt/save-config-pro/view/historique_sauvegardes.py:111 | every text that parses is the stored form of what it parses to |
| Stamps.ParseShownRoundTrip | save-config-pro_1.0-1/opt/save-config-pro/view/historique_sauvegardes.py:148 | reading a displayed timestamp back gives the same minute with zero seconds |
| Stamps.MinuteKey | save-config-pro_1.0-1/opt/save-config-pro/view/historique_sauvegardes.py:163 | the minute key has 16 characters |
| Stamps.MinuteKeyIgnoresSeconds | save-config-pro_1.0-1/opt/save-config-pro/view/historique_sauvegardes.py:148-163 | the key does not depend on the seconds, and a stored timestamp starts with its own minute key |
| Probes.CountChar | save-config-pro_1.0-1/opt/save-config-pro/view/composants/scr_backup_cisco.py:78 | the count is at most the length, and zero exactly when the character is absent |
| Probes.FirstToken | save-config-pro_1.0-1/opt/save-config-pro/view/composants/scr_backup_cisco.py:74-79 | none exactly when no token passes; otherwise the first token that passes |
| Probes.CiscoArpMac | save-config-pro_1.0-1/opt/save-config-pro/view/composants/scr_backup_cisco.py:71-82 | a MAC found in the ARP output has 17 characters and is upper-case |
| Probes.LinuxArpMac | save-config-pro_1.0-1/opt/save-config-pro/view/composants/scr_backup_mikrotik.py:86-112 | a MAC found in the ARP or neighbour output has 17 characters and is lower-case |
| Probes.UpperIdempotent | save-config-pro_1.0-1/opt/save-config-pro/view/composants/scr_backup_cisco.py:79 | upper-casing twice is upper-casing once |
| Probes.LowerIdempotent | save-config-pro_1.0-1/opt/save-config-pro/view/composants/scr_backup_mikrotik.py:102 | lower-casing twice is lower-casing once |
| Registry.RecordsOf | save-config-pro_1.0-1/opt/save-config-pro/view/saverestauration.py:334-345 | a parsed registry gives its records; a missing, unreadable or ill-shaped one gives none |
| Registry.ColonMac | save-config-pro_1.0-1/opt/save-config-pro/view/composants/scr_backup_cisco.py:133 | the colon form keeps the length and has no dash |
| Registry.DashMac | save-config-pro_1.0-1/opt/save-config-pro/view/composants/scr_backup_mikrotik.py:194 | the dash form keeps the length and has no colon |
| Workspace.AsEntry | save-config-pro_1.0-1/opt/save-config-pro/view/plannification.py:333-340 | the scheduler sees a directory of the same name holding exactly the files written into it |
| Workspace.BecomeSuffix | save-config-pro_1.0-1/opt/save-config-pro/view/composants/scr_backup_cisco.py:149-150 | the become keys are added exactly when an enable password is set and not empty |
| BackupCisco.KeyIndex | save-config-pro_1.0-1/opt/save-config-pro/view/composants/scr_backup_cisco.py:105 | the position of a key present in the FTP map |
| BackupCisco.BucketOf | save-config-pro_1.0-1/opt/save-config-pro/view/composants/scr_backup_cisco.py:108-117 | a device goes to a named bucket only when the first subnet containing its address is a key of the FTP map |
| BackupCisco.Buckets | save-config-pro_1.0-1/opt/save-config-pro/view/composants/scr_backup_cisco.py:246-251 | one bucket per FTP map entry, in map order, with its subnet and FTP address, then "unknown" with 0.0.0.0 |
| BackupCisco.Rank | save-config-pro_1.0-1/opt/save-config-pro/view/composants/scr_backup_cisco.py:246-251 | the position of a device's bucket is at most the number of subnets |
| BackupCisco.Members | save-config-pro_1.0-1/opt/save-config-pro/view/composants/scr_backup_cisco.py:105-117 | a bucket's list holds positions of devices of that bucket, in file order |
| BackupCisco.MembersComplete | save-config-pro_1.0-1/opt/save-config-pro/view/composants/scr_backup_cisco.py:105-117 | no device of a bucket is missing from its list |
| BackupCisco.BucketIndex | save-config-pro_1.0-1/opt/save-config-pro/view/composants/scr_backup_cisco.py:105-117 | bucket j holds exactly the devices whose rank is j, so each device lands in exactly one bucket |
| BackupCisco.MembersStep | save-config-pro_1.0-1/opt/save-config-pro/view/composants/scr_backup_cisco.py:108-117 | appending one device extends exactly the list of its own bucket |
| BackupCisco.Bucketize | save-config-pro_1.0-1/opt/save-config-pro/view/composants/scr_backup_cisco.py:105-117 | the loop builds one list per subnet of the map, in map order, and the "unknown" list, each equal to Members |
| BackupCisco.Check | save-config-pro_1.0-1/opt/save-config-pro/view/composants/scr_backup_cisco.py:128-162 | the verdict is missing exactly when the device has no credentials, where the source raises |
| BackupCisco.CheckVerdicts | save-config-pro_1.0-1/opt/save-config-pro/view/composants/scr_backup_cisco.py:128-162 | a device failing ping, ARP or SSH is marked failed; a passing one is listed under [ciscoios] or [ciscoasa] by its upper-cased system with a line starting with its dashed MAC; any other system is skipped |
| BackupCisco.BecomeOnlyWithEnable | save-config-pro_1.0-1/opt/save-config-pro/view/composants/scr_backup_cisco.py:142-150 | an accepted line ends with the enable keys exactly when an enable password is set and not empty, else with the connection type |
| BackupCisco.Apply | save-config-pro_1.0-1/opt/save-config-pro/view/composants/scr_backup_cisco.py:151-162 | a failed device only gets sauvegarde false, a skipped one is untouched, an accepted one gets status and sauvegarde true and its bucket's subnet and FTP address |
| BackupCisco.FinalFlags | save-config-pro_1.0-1/opt/save-config-pro/view/composants/scr_backup_cisco.py:108-162 | each device's final record follows its verdict in the bucket it was sorted into |
| BackupCisco.GroupLines | save-config-pro_1.0-1/opt/save-config-pro/view/composants/scr_backup_cisco.py:128-152 | a group collects at most one line per device |
| BackupCisco.GroupLinesEmpty | save-config-pro_1.0-1/opt/save-config-pro/view/composants/scr_backup_cisco.py:128-165 | both groups stay empty exactly when no device of the bucket is accepted |
| BackupCisco.Comments | save-config-pro_1.0-1/opt/save-config-pro/view/composants/scr_backup_cisco.py:124-126 | the inventory opens with three comment lines |
| BackupCisco.InventorySections | save-config-pro_1.0-1/opt/save-config-pro/view/composants/scr_backup_cisco.py:124-170 | a section header is present exactly for a non-empty group, [ciscoios] with its lines first and [ciscoasa] with its lines after |
| BackupCisco.HeaderAbsent | save-config-pro_1.0-1/opt/save-config-pro/view/composants/scr_backup_cisco.py:165-170 | a header is none of the comment lines and none of the host lines |
| BackupCisco.BucketDirMeaning | save-config-pro_1.0-1/opt/save-config-pro/view/composants/scr_backup_cisco.py:172-244 | a bucket directory is written exactly when a device of the bucket is accepted, and then it has the bucket's name and the inventory and playbook the scheduler needs |
| BackupCisco.At | save-config-pro_1.0-1/opt/save-config-pro/view/composants/scr_backup_cisco.py:119 | the records handed to process_subnet are those at the bucket's positions |
| BackupCisco.Visit | save-config-pro_1.0-1/opt/save-config-pro/view/composants/scr_backup_cisco.py:128-162 | one pass of the loop body raises exactly when the device has no credentials, else applies its verdict and extends its group |
| BackupCisco.ProcessBucket | save-config-pro_1.0-1/opt/save-config-pro/view/composants/scr_backup_cisco.py:119-244 | the bucket raises exactly when one of its devices lacks credentials; otherwise every device gets its verdict and the directory is BucketDir |
| BackupCisco.GroupLinesSnoc | save-config-pro_1.0-1/opt/save-config-pro/view/composants/scr_backup_cisco.py:128-152 | the groups after one more device are the groups before plus that device's line |
| BackupCisco.WriteBack | save-config-pro_1.0-1/opt/save-config-pro/view/composants/scr_backup_cisco.py:105-117 | the bucket holds the registry's own record objects: the results land at the bucket's positions and no other record changes |
| BackupCisco.Plan | save-config-pro_1.0-1/opt/save-config-pro/view/composants/scr_backup_cisco.py:246-251 | the process_subnet calls of a run are one per bucket, in order, each with its devices |
| BackupCisco.AnyCrashSnoc | save-config-pro_1.0-1/opt/save-config-pro/view/composants/scr_backup_cisco.py:246-251 | a run over one more bucket raises when the earlier ones did or the new one does |
| BackupCisco.RunBucketsCrash | save-config-pro_1.0-1/opt/save-config-pro/view/composants/scr_backup_cisco.py:246-251 | the loop over the buckets raises exactly when some bucket holds a device without credentials |
| BackupCisco.RunBucketsDirs | save-config-pro_1.0-1/opt/save-config-pro/view/composants/scr_backup_cisco.py:246-251 | without a raise, a directory is written exactly when some bucket has an accepted device |
| BackupCisco.RunBucketsRunnable | save-config-pro_1.0-1/opt/save-config-pro/view/composants/scr_backup_cisco.py:172-251 | every directory written is stored under its own name and is runnable by the scheduler |
| BackupCisco.PlanCovers | save-config-pro_1.0-1/opt/save-config-pro/view/composants/scr_backup_cisco.py:105-117 | each device sits in exactly the bucket of its rank |
| BackupCisco.PlanFrom | save-config-pro_1.0-1/opt/save-config-pro/view/composants/scr_backup_cisco.py:105-117 | every record of a bucket is one of the devices |
| BackupCisco.CiscoRunMeaning | save-config-pro_1.0-1/opt/save-config-pro/view/composants/scr_backup_cisco.py:29-262 | with readable inputs, the run raises exactly when some device has no credentials; otherwise every device gets its final flags, backup_cisco survives exactly when a device was accepted, and each sub-directory is runnable |
| BackupCisco.PlanRun | save-config-pro_1.0-1/opt/save-config-pro/view/composants/scr_backup_cisco.py:246-251 | the bucket loop over the plan raises exactly when a device raises, and otherwise writes a directory exactly when some device is accepted |
| BackupCisco.PlanCrashes | save-config-pro_1.0-1/opt/save-config-pro/view/composants/scr_backup_cisco.py:105-117 | some bucket holds a device that raises exactly when some device does |
| BackupCisco.PlanAccepted | save-config-pro_1.0-1/opt/save-config-pro/view/composants/scr_backup_cisco.py:105-117 | some bucket holds an accepted device exactly when some device is accepted |
| BackupCisco.RunBucketsNext | save-config-pro_1.0-1/opt/save-config-pro/view/composants/scr_backup_cisco.py:246-251 | the loop's state after a bucket follows from its state before it |
| BackupCisco.WriteBackFinal | save-config-pro_1.0-1/opt/save-config-pro/view/composants/scr_backup_cisco.py:105-162 | after bucket j every device of rank up to j holds its final record and the rest are untouched |
| BackupCisco.RunBucketsStops | save-config-pro_1.0-1/opt/save-config-pro/view/composants/scr_backup_cisco.py:246-251 | once the loop has raised, later buckets change nothing |
| BackupCisco.MembersRank | save-config-pro_1.0-1/opt/save-config-pro/view/composants/scr_backup_cisco.py:105-117 | bucket j holds exactly the devices of rank j |
| BackupCisco.RunStep | save-config-pro_1.0-1/opt/save-config-pro/view/composants/scr_backup_cisco.py:246-251 | one turn of the bucket loop advances the run by one bucket, keeps has_valid_equipments true exactly when a directory exists, and gives the processed devices their final records |
| BackupCisco.RunLoop | save-config-pro_1.0-1/opt/save-config-pro/view/composants/scr_backup_cisco.py:246-251 | the loop over the buckets ends in RunBuckets of the plan, and without a raise every device holds its final record |
| BackupCisco.RunCisco | save-config-pro_1.0-1/opt/save-config-pro/view/composants/scr_backup_cisco.py:29-262 | the script as written computes CiscoRun |
| BackupMikrotik.SubnetOf | save-config-pro_1.0-1/opt/save-config-pro/view/composants/scr_backup_mikrotik.py:46-54 | none exactly when no subnet of the FTP map contains the address; otherwise a subnet that is a key of the map |
| BackupMikrotik.AppliedAll | save-config-pro_1.0-1/opt/save-config-pro/view/composants/scr_backup_mikrotik.py:132-154 | the loop leaves one record per device, in file order, each after its own pass |
| BackupMikrotik.AppliedFlags | save-config-pro_1.0-1/opt/save-config-pro/view/composants/scr_backup_mikrotik.py:137-154 | a failing device only gets sauvegarde false; a validated one gets both flags, and its subnet and FTP address exactly when its address lies in a subnet of the map |
| BackupMikrotik.Seen | save-config-pro_1.0-1/opt/save-config-pro/view/composants/scr_backup_mikrotik.py:132-154 | for each device, whether it joins reachable_equipments and its record afterwards |
| BackupMikrotik.Reach | save-config-pro_1.0-1/opt/save-config-pro/view/composants/scr_backup_mikrotik.py:131-154 | reachable_equipments holds at most one record per device |
| BackupMikrotik.ReachMeaning | save-config-pro_1.0-1/opt/save-config-pro/view/composants/scr_backup_mikrotik.py:131-154 | a record is in reachable_equipments exactly when it comes from a device that joins, and then it is flagged and carries the subnet its address lies in with that subnet's FTP address |
| BackupMikrotik.JoinedShape | save-config-pro_1.0-1/opt/save-config-pro/view/composants/scr_backup_mikrotik.py:141-147 | a device that joins has both flags set and the subnet and FTP address of the first subnet of the map containing it |
| BackupMikrotik.KeyIndexOf | save-config-pro_1.0-1/opt/save-config-pro/view/composants/scr_backup_mikrotik.py:146 | the position of the first pair with the key |
| BackupMikrotik.ReachMembership | save-config-pro_1.0-1/opt/save-config-pro/view/composants/scr_backup_mikrotik.py:131-154 | a record is in reachable_equipments exactly when it comes from a device that joins |
| BackupMikrotik.ValidateAll | save-config-pro_1.0-1/opt/save-config-pro/view/composants/scr_backup_mikrotik.py:131-154 | the loop raises exactly when some device lacks credentials or a MAC; otherwise it yields AppliedAll and Reach, and has_valid_equipments says whether Reach is non-empty |
| BackupMikrotik.ReachStep | save-config-pro_1.0-1/opt/save-config-pro/view/composants/scr_backup_mikrotik.py:147 | the list grows by at most the device visited |
| BackupMikrotik.Visit | save-config-pro_1.0-1/opt/save-config-pro/view/composants/scr_backup_mikrotik.py:133-154 | one pass of the loop body applies the device's verdict and says whether it joins |
| BackupMikrotik.InSubnetNamed | save-config-pro_1.0-1/opt/save-config-pro/view/composants/scr_backup_mikrotik.py:179 | the filter keeps at most the reachable devices |
| BackupMikrotik.InSubnetNamedMeaning | save-config-pro_1.0-1/opt/save-config-pro/view/composants/scr_backup_mikrotik.py:179 | a record is kept exactly when it is reachable and its subnet is the one named |
| BackupMikrotik.HostLines | save-config-pro_1.0-1/opt/save-config-pro/view/composants/scr_backup_mikrotik.py:192-198 | one host line per device of the directory, in order |
| BackupMikrotik.HostLineStart | save-config-pro_1.0-1/opt/save-config-pro/view/composants/scr_backup_mikrotik.py:193-198 | a host line starts with the dashed MAC and the address, and ends with the routeros network os and network_cli |
| BackupMikrotik.MikrotikDirRunnable | save-config-pro_1.0-1/opt/save-config-pro/view/composants/scr_backup_mikrotik.py:175-212 | the directory is named after the FTP address and holds the inventory and backup_mikrotik_ftp.yml the scheduler needs |
| BackupMikrotik.InSubnetNamedWritable | save-config-pro_1.0-1/opt/save-config-pro/view/composants/scr_backup_mikrotik.py:179-198 | the devices of a subnet all have what a host line needs |
| BackupMikrotik.GenDirsMeaning | save-config-pro_1.0-1/opt/save-config-pro/view/composants/scr_backup_mikrotik.py:173-186 | directory names are distinct, and every directory created is runnable and belongs to a subnet of the map with reachable devices, named after its FTP address |
| BackupMikrotik.AppendDir | save-config-pro_1.0-1/opt/save-config-pro/view/composants/scr_backup_mikrotik.py:185-186 | adding a directory under a new name keeps the names distinct and the earlier ones in place |
| BackupMikrotik.GenDirsNotEmpty | save-config-pro_1.0-1/opt/save-config-pro/view/composants/scr_backup_mikrotik.py:173-186 | a subnet with reachable devices makes the loop raise or create a directory |
| BackupMikrotik.ReachableMakesDirs | save-config-pro_1.0-1/opt/save-config-pro/view/composants/scr_backup_mikrotik.py:261-264 | when some device is reachable, the loop raises or creates a directory, so the final clean-up is never reached with nothing created |
| BackupMikrotik.ReachWritable | save-config-pro_1.0-1/opt/save-config-pro/view/composants/scr_backup_mikrotik.py:131-147 | every reachable device has a MAC, credentials and an address |
| BackupMikrotik.GenerateDirs | save-config-pro_1.0-1/opt/save-config-pro/view/composants/scr_backup_mikrotik.py:173-259 | the directory loop computes GenDirs |
| BackupMikrotik.GenDirsStops | save-config-pro_1.0-1/opt/save-config-pro/view/composants/scr_backup_mikrotik.py:185 | once makedirs has raised, later subnets change nothing |
| BackupMikrotik.MikrotikRunMeaning | save-config-pro_1.0-1/opt/save-config-pro/view/composants/scr_backup_mikrotik.py:28-264 | with readable inputs and records that all have credentials and a MAC, the registry holds every device's new flags; backup_mikrotik is left as it was exactly when no validated device lies in a subnet of the map, and otherwise exists with only runnable directories named after FTP addresses |
| BackupMikrotik.AfterLoopMeaning | save-config-pro_1.0-1/opt/save-config-pro/view/composants/scr_backup_mikrotik.py:156-264 | the same, stated for the part of the script after the validation loop |
| BackupMikrotik.ReachEmpty | save-config-pro_1.0-1/opt/save-config-pro/view/composants/scr_backup_mikrotik.py:160-163 | reachable_equipments stays empty exactly when no device joins it |
| BackupMikrotik.GeneratedDirs | save-config-pro_1.0-1/opt/save-config-pro/view/composants/scr_backup_mikrotik.py:165-259 | when some device is reachable, at least one directory is created, and each is runnable and named after an FTP address of the map |
| BackupMikrotik.GenDirsCrashHasDirs | save-config-pro_1.0-1/opt/save-config-pro/view/composants/scr_backup_mikrotik.py:185 | the directory loop can only raise on a name it has already created |
| BackupMikrotik.RunMikrotik | save-config-pro_1.0-1/opt/save-config-pro/view/composants/scr_backup_mikrotik.py:28-264 | the script as written computes MikrotikRun |
| BackupFortinet.Landing | save-config-pro_1.0-1/opt/save-config-pro/view/composants/scr_backup_fortinet.py:137-148 | a device lands on an FTP address only when it validates, and that address serves a subnet of the map |
| BackupFortinet.AppliedAll | save-config-pro_1.0-1/opt/save-config-pro/view/composants/scr_backup_fortinet.py:123-156 | the loop leaves one record per device, in file order, each after its own pass |
| BackupFortinet.AppliedFlags | save-config-pro_1.0-1/opt/save-config-pro/view/composants/scr_backup_fortinet.py:130-156 | a failing device only gets sauvegarde false; a validated one gets both flags, and the subnet and FTP address of the first subnet containing it when there is one |
| BackupFortinet.Seen | save-config-pro_1.0-1/opt/save-config-pro/view/composants/scr_backup_fortinet.py:123-156 | for each device, whether it joins reachable_equipments and its record afterwards |
| BackupFortinet.SeenBy | save-config-pro_1.0-1/opt/save-config-pro/view/composants/scr_backup_fortinet.py:137-148 | for each device, whether it is appended to the list of a given FTP address, and its record afterwards |
| BackupFortinet.Reach | save-config-pro_1.0-1/opt/save-config-pro/view/composants/scr_backup_fortinet.py:122-150 | reachable_equipments holds at most one record per device |
| BackupFortinet.Bucket | save-config-pro_1.0-1/opt/save-config-pro/view/composants/scr_backup_fortinet.py:147 | the list of an FTP address holds at most one record per device |
| BackupFortinet.ReachStep | save-config-pro_1.0-1/opt/save-config-pro/view/composants/scr_backup_fortinet.py:150 | reachable_equipments grows by the visited device exactly when it validates |
| BackupFortinet.BucketStep | save-config-pro_1.0-1/opt/save-config-pro/view/composants/scr_backup_fortinet.py:147 | the list of an address grows by the visited device exactly when it lands there |
| BackupFortinet.ReachMembership | save-config-pro_1.0-1/opt/save-config-pro/view/composants/scr_backup_fortinet.py:122-150 | a record is in reachable_equipments exactly when it is what the loop made of a validated device, whether or not a subnet contains it |
| BackupFortinet.BucketMembership | save-config-pro_1.0-1/opt/save-config-pro/view/composants/scr_backup_fortinet.py:137-148 | a record is in the list of an address exactly when it comes from a validated device whose first containing subnet that address serves, and it carries that address |
| BackupFortinet.LandedShape | save-config-pro_1.0-1/opt/save-config-pro/view/composants/scr_backup_fortinet.py:134-147 | a device in the list of an address is validated, flagged, has an address and carries that FTP address |
| BackupFortinet.Servers | save-config-pro_1.0-1/opt/save-config-pro/view/composants/scr_backup_fortinet.py:120 | one empty list per distinct FTP address |
| BackupFortinet.ServersKeys | save-config-pro_1.0-1/opt/save-config-pro/view/composants/scr_backup_fortinet.py:120 | there is a list for an address exactly when it serves some subnet of the map |
| BackupFortinet.ServersSnoc | save-config-pro_1.0-1/opt/save-config-pro/view/composants/scr_backup_fortinet.py:120 | the keys after one more subnet are the earlier keys and that subnet's address |
| BackupFortinet.Grouped | save-config-pro_1.0-1/opt/save-config-pro/view/composants/scr_backup_fortinet.py:120-147 | ftp_equipments holds every address of the map, in first-appearance order, with its list |
| BackupFortinet.GroupedEmpty | save-config-pro_1.0-1/opt/save-config-pro/view/composants/scr_backup_fortinet.py:120 | before the loop every list is empty |
| BackupFortinet.GroupedUnique | save-config-pro_1.0-1/opt/save-config-pro/view/composants/scr_backup_fortinet.py:120-147 | the addresses stay distinct as the loop goes |
| BackupFortinet.ServerPosition | save-config-pro_1.0-1/opt/save-config-pro/view/composants/scr_backup_fortinet.py:120 | an address the map serves has a list |
| BackupFortinet.GroupedGrows | save-config-pro_1.0-1/opt/save-config-pro/view/composants/scr_backup_fortinet.py:147 | each list grows by at most the visited device, and only the list of the address it lands on |
| BackupFortinet.GroupedStepNone | save-config-pro_1.0-1/opt/save-config-pro/view/composants/scr_backup_fortinet.py:137-148 | a device that lands nowhere leaves every list as it was |
| BackupFortinet.GroupedStepSome | save-config-pro_1.0-1/opt/save-config-pro/view/composants/scr_backup_fortinet.py:147 | a device that lands on an address is appended to that list alone |
| BackupFortinet.AppendAt | save-config-pro_1.0-1/opt/save-config-pro/view/composants/scr_backup_fortinet.py:147 | appending to the list of one address and no other is the dict update of that key |
| BackupFortinet.Visit | save-config-pro_1.0-1/opt/save-config-pro/view/composants/scr_backup_fortinet.py:124-156 | one pass of the loop body applies the device's verdict, says whether it validates and on which address it lands |
| BackupFortinet.FirstSubnet | save-config-pro_1.0-1/opt/save-config-pro/view/composants/scr_backup_fortinet.py:138-148 | the search finds the first entry of the map whose subnet contains the address |
| BackupFortinet.ValidateAll | save-config-pro_1.0-1/opt/save-config-pro/view/composants/scr_backup_fortinet.py:122-156 | the loop raises exactly when some device lacks credentials or a MAC; otherwise it yields AppliedAll, Reach and Grouped |
| BackupFortinet.HostLines | save-config-pro_1.0-1/opt/save-config-pro/view/composants/scr_backup_fortinet.py:189-195 | one host line per device of the list, in order |
| BackupFortinet.HostLineShape | save-config-pro_1.0-1/opt/save-config-pro/view/composants/scr_backup_fortinet.py:190-195 | a host line starts with the dashed MAC and the address, and ends with the SSH connection |
| BackupFortinet.FortinetDirRunnable | save-config-pro_1.0-1/opt/save-config-pro/view/composants/scr_backup_fortinet.py:182-212 | the directory holds the inventory and backup_fortinet_ftp.yml the scheduler needs |
| BackupFortinet.GroupedWritable | save-config-pro_1.0-1/opt/save-config-pro/view/composants/scr_backup_fortinet.py:122-150 | every record in a list has what a host line needs |
| BackupFortinet.DirOfPrefix | save-config-pro_1.0-1/opt/save-config-pro/view/composants/scr_backup_fortinet.py:177-183 | a directory made from a prefix of the lists is one of the whole lists |
| BackupFortinet.GenDirsFrom | save-config-pro_1.0-1/opt/save-config-pro/view/composants/scr_backup_fortinet.py:177-183 | every directory created is that of a non-empty list |
| BackupFortinet.GenDirsUnique | save-config-pro_1.0-1/opt/save-config-pro/view/composants/scr_backup_fortinet.py:177-183 | no two directories share a name, so os.makedirs never meets an existing one |
| BackupFortinet.GenDirsComplete | save-config-pro_1.0-1/opt/save-config-pro/view/composants/scr_backup_fortinet.py:177-183 | every non-empty list gets its directory |
| BackupFortinet.GenDirsRunnable | save-config-pro_1.0-1/opt/save-config-pro/view/composants/scr_backup_fortinet.py:177-212 | every directory created is runnable by the scheduler |
| BackupFortinet.NewDirName | save-config-pro_1.0-1/opt/save-config-pro/view/composants/scr_backup_fortinet.py:182 | the last address's directory name is not taken by an earlier list |
| BackupFortinet.DirNameInjective | save-config-pro_1.0-1/opt/save-config-pro/view/composants/scr_backup_fortinet.py:182 | two addresses with the same directory name are the same address |
| BackupFortinet.AppendDir | save-config-pro_1.0-1/opt/save-config-pro/view/composants/scr_backup_fortinet.py:183 | adding a directory under a new name keeps the names distinct and the earlier ones in place |
| BackupFortinet.GenerateDirs | save-config-pro_1.0-1/opt/save-config-pro/view/composants/scr_backup_fortinet.py:177-228 | the directory loop computes GenDirs |
| BackupFortinet.ReachEmpty | save-config-pro_1.0-1/opt/save-config-pro/view/composants/scr_backup_fortinet.py:159-161 | reachable_equipments stays empty exactly when no device validates |
| BackupFortinet.FortinetRunMeaning | save-config-pro_1.0-1/opt/save-config-pro/view/composants/scr_backup_fortinet.py:99-228 | with readable inputs and records that all have credentials and a MAC, the run never raises; when no device validates neither the registry nor backup_fortinet changes; otherwise the registry holds the new flags and backup_fortinet holds runnable directories under distinct names, each named after an FTP address |
| BackupFortinet.AfterLoopMeaning | save-config-pro_1.0-1/opt/save-config-pro/view/composants/scr_backup_fortinet.py:159-228 | the same, stated for the part of the script after the validation loop |
| BackupFortinet.GeneratedDirs | save-config-pro_1.0-1/opt/save-config-pro/view/composants/scr_backup_fortinet.py:172-228 | every directory is runnable and named after an FTP address of the map, and no two share a name |
| BackupFortinet.DirNamesFromMap | save-config-pro_1.0-1/opt/save-config-pro/view/composants/scr_backup_fortinet.py:177-182 | every directory is named after an FTP address of the map |
| BackupFortinet.DeviceDirectory | save-config-pro_1.0-1/opt/save-config-pro/view/composants/scr_backup_fortinet.py:137-195 | a validated device whose address lies in a subnet of the map ends up, with its new flags, in the inventory of that subnet's FTP address, which lists exactly the devices filed under it |
| BackupFortinet.BucketDir | save-config-pro_1.0-1/opt/save-config-pro/view/composants/scr_backup_fortinet.py:177-183 | the list of a served address has its directory once it is not empty |
| BackupFortinet.BucketWritable | save-config-pro_1.0-1/opt/save-config-pro/view/composants/scr_backup_fortinet.py:147-150 | every record of a list has what a host line needs |
| BackupFortinet.RunFortinet | save-config-pro_1.0-1/opt/save-config-pro/view/composants/scr_backup_fortinet.py:99-228 | the script as written computes FortinetRun |
| RestoreFiles.StopIndex | save-config-pro_1.0-1/opt/save-config-pro/view/composants/scr_restore.py:45-50 | the position of the first entry where the loop raises or finds the address, or the length |
| RestoreFiles.SubnetForIp | save-config-pro_1.0-1/opt/save-config-pro/view/composants/scr_restore.py:41-53 | a malformed device address gives none; the first entry where the loop stops decides: a malformed one gives none, a containing one gives its text; with no stop the result is none |
| RestoreFiles.SubnetsOf | save-config-pro_1.0-1/opt/save-config-pro/view/composants/scr_restore.py:45-47 | on a well-formed list, the parsed subnets in order |
| RestoreFiles.SubnetForIpWellFormed | save-config-pro_1.0-1/opt/save-config-pro/view/composants/scr_restore.py:41-53 | on a well-formed list the lookup is the first-match lookup the backup scripts share |
| RestoreFiles.ServerTableMeaning | save-config-pro_1.0-1/opt/save-config-pro/view/composants/scr_restore.py:69-76 | the table holds exactly the subnets with a local address, each once, with that address |
| RestoreFiles.TableWithMeaning | save-config-pro_1.0-1/opt/save-config-pro/view/composants/scr_restore.py:73-76 | the same for any way of finding the local address |
| RestoreFiles.TableKeeps | save-config-pro_1.0-1/opt/save-config-pro/view/composants/scr_restore.py:74-75 | an entry without a local address leaves the table's meaning intact |
| RestoreFiles.TableAdds | save-config-pro_1.0-1/opt/save-config-pro/view/composants/scr_restore.py:74-76 | an entry with a local address is recorded with that address |
| RestoreFiles.PutHasKey | save-config-pro_1.0-1/opt/save-config-pro/view/composants/scr_restore.py:76 | after the assignment the keys are the old ones and the new one |
| RestoreFiles.PutPairs | save-config-pro_1.0-1/opt/save-config-pro/view/composants/scr_restore.py:76 | after the assignment every pair is the new pair or an old one |
| RestoreFiles.ChooseFtp | save-config-pro_1.0-1/opt/save-config-pro/view/composants/scr_restore.py:83-103 | the table's address for a known subnet wins, else the default local address, else the typed address, and it raises exactly when none of the three is available |
| RestoreFiles.KindOf | save-config-pro_1.0-1/opt/save-config-pro/view/composants/scr_restore.py:124-268 | the lower-cased type selects ASA (cisco with system asa), IOS (any other cisco), RouterOS or FortiOS, and every other type is unsupported |
| RestoreFiles.CfgSection | save-config-pro_1.0-1/opt/save-config-pro/view/composants/scr_restore.py:114-235 | the configuration gets an extra section for every kind except ASA |
| RestoreFiles.WrittenMeaning | save-config-pro_1.0-1/opt/save-config-pro/view/composants/scr_restore.py:271-279 | each written file holds its content, other files of the directory are left, and names stay distinct |
| RestoreFiles.GenerateRestoreFiles | save-config-pro_1.0-1/opt/save-config-pro/view/composants/scr_restore.py:78-279 | the generator computes Generate |
| RestoreFiles.BuildFiles | save-config-pro_1.0-1/opt/save-config-pro/view/composants/scr_restore.py:113-275 | nothing is built exactly for an unsupported type; otherwise the three files of RestoreFileSet |
| RestoreFiles.WriteFiles | save-config-pro_1.0-1/opt/save-config-pro/view/composants/scr_restore.py:277-279 | the writing loop yields Written |
| RestoreFiles.RaisesOnlyWithoutFtp | save-config-pro_1.0-1/opt/save-config-pro/view/composants/scr_restore.py:81-109 | the generator raises exactly when no FTP address can be found, and otherwise creates restore_<type> |
| RestoreFiles.UnsupportedWritesNothing | save-config-pro_1.0-1/opt/save-config-pro/view/composants/scr_restore.py:105-268 | an unsupported type still creates the directory but writes nothing into it |
| RestoreFiles.SupportedWritesThree | save-config-pro_1.0-1/opt/save-config-pro/view/composants/scr_restore.py:105-279 | a supported type writes exactly ansible.cfg, the playbook pointed at the chosen FTP address and the requested file, and inventory.ini, leaving every other file |
| RestoreFiles.FileSetKeys | save-config-pro_1.0-1/opt/save-config-pro/view/composants/scr_restore.py:271-275 | the three file names are distinct and no other name is among them |
| RestoreFiles.SupportedIsRunnable | save-config-pro_1.0-1/opt/save-config-pro/view/composants/scr_restore.py:271-290 | the directory holds the inventory and the playbook that ansible-playbook is given |
| RestoreFiles.SubnetServerFirst | save-config-pro_1.0-1/opt/save-config-pro/view/composants/scr_restore.py:84-85 | when the device's subnet has an FTP address, that address is used whatever the default and the prompt would give |
| RestoreFiles.BecomeOnlyWithEnable | save-config-pro_1.0-1/opt/save-config-pro/view/composants/scr_restore.py:119-121 | the host line ends with the become keys exactly when an enable password is set and not empty, else with the connection keys |
| RestoreFiles.CiscoPlatforms | save-config-pro_1.0-1/opt/save-config-pro/view/composants/scr_restore.py:124-191 | an ASA restore has the defaults-only configuration and the ASA playbook; every other cisco restore is IOS with the network_cli section; the playbook is restore_cisco_ftp.yml |
| BackupHistory.Screen.constructor | save-config-pro_1.0-1/opt/save-config-pro/view/historique_sauvegardes.py:8-16 | the screen starts with the log it is given, an empty table and no detail window |
| BackupHistory.StatusCaseInsensitive | save-config-pro_1.0-1/opt/save-config-pro/view/historique_sauvegardes.py:119-123 | the status is looked up in lower case, so its case never changes the label |
| BackupHistory.StatusWordKept | save-config-pro_1.0-1/opt/save-config-pro/view/historique_sauvegardes.py:119-123 | a status outside the three known ones is shown as the same word, capitalised |
| BackupHistory.SchedulerStatuses | save-config-pro_1.0-1/opt/save-config-pro/view/historique_sauvegardes.py:119-123 | "en_cours", "succes" and "echec" are shown as "En cours", "Succès" and "Échec" |
| BackupHistory.FormatDate | save-config-pro_1.0-1/opt/save-config-pro/view/historique_sauvegardes.py:278-282 | a readable stored timestamp is shown as the same minute in the displayed form; anything else is "En cours" |
| BackupHistory.TableRows | save-config-pro_1.0-1/opt/save-config-pro/view/historique_sauvegardes.py:102-127 | one row per log entry, in log order |
| BackupHistory.FreshEntryRow | save-config-pro_1.0-1/opt/save-config-pro/view/historique_sauvegardes.py:102-127 | the entry the scheduler opens shows its start minute, "En cours" as end and as status, and the number of devices it snapshot |
| BackupHistory.ClosedEntryRow | save-config-pro_1.0-1/opt/save-config-pro/view/historique_sauvegardes.py:110-113 | an entry with a readable start and end shows both as their minute |
| BackupHistory.FinishedEntryRow | save-config-pro_1.0-1/opt/save-config-pro/view/historique_sauvegardes.py:102-127 | after the scheduler marks and closes its last entry, the row shows the start and closing minutes and "Succès" or "Échec" |
| BackupHistory.ClickFindsEntry | save-config-pro_1.0-1/opt/save-config-pro/view/historique_sauvegardes.py:134-165 | double-clicking the row of an entry with a user and a readable start opens that entry or an earlier one of the same user started in the same minute |
| BackupHistory.WithoutMeaning | save-config-pro_1.0-1/opt/save-config-pro/view/historique_sauvegardes.py:252-256 | the deletion keeps exactly the entries whose start or user differ from the target's, is idempotent, and shortens a log holding the target |
| BackupHistory.Screen.LoadHistory | save-config-pro_1.0-1/opt/save-config-pro/view/historique_sauvegardes.py:95-132 | a parsed log replaces the table with its rows; a missing or undecodable file leaves the table; a non-list empties the table and raises |
| BackupHistory.Screen.BuildRows | save-config-pro_1.0-1/opt/save-config-pro/view/historique_sauvegardes.py:102-127 | the insertion loop yields TableRows of the log |
| BackupHistory.Screen.OnRowClick | save-config-pro_1.0-1/opt/save-config-pro/view/historique_sauvegardes.py:134-172 | the click opens the matching entry only when no detail window is open; otherwise the window stays as it was |
| BackupHistory.Screen.CloseDetail | save-config-pro_1.0-1/opt/save-config-pro/view/historique_sauvegardes.py:172 | closing the window leaves no detail window |
| BackupHistory.Screen.DeleteEntry | save-config-pro_1.0-1/opt/save-config-pro/view/historique_sauvegardes.py:245-266 | a readable log loses every entry with the target's start and user, the window is closed and the table reloaded; an unreadable log changes nothing |
| BackupHistory.Screen.DeleteAll | save-config-pro_1.0-1/opt/save-config-pro/view/historique_sauvegardes.py:268-276 | the log and the table are empty |
| RestoreHistory.Screen.constructor | save-config-pro_1.0-1/opt/save-config-pro/view/historique_restauration.py:9-17 | the screen starts with the journal it is given, an empty table and no detail window |
| RestoreHistory.FormatDate | save-config-pro_1.0-1/opt/save-config-pro/view/historique_restauration.py:288-292 | a readable stored timestamp is shown as the same minute in the displayed form; anything else is "N/A" |
| RestoreHistory.FirstStamp | save-config-pro_1.0-1/opt/save-config-pro/view/historique_restauration.py:99 | the leftmost position from which the date pattern matches, or none when it matches nowhere |
| RestoreHistory.ExtractDate | save-config-pro_1.0-1/opt/save-config-pro/view/historique_restauration.py:95-105 | the file date column is "N/A" or a readable minute in the displayed form |
| RestoreHistory.FileStampText | save-config-pro_1.0-1/opt/save-config-pro/view/historique_restauration.py:101 | a file-name stamp with the dashes of its time part turned into colons is the stored form of the same moment |
| RestoreHistory.StampedNameMatch | save-config-pro_1.0-1/opt/save-config-pro/view/historique_restauration.py:99 | in a name made of a prefix without four digits in a row, a stamp and any suffix, the pattern matches first at the stamp |
| RestoreHistory.FileStampMatches | save-config-pro_1.0-1/opt/save-config-pro/view/historique_restauration.py:99 | the file-name form of a valid moment matches the date pattern |
| RestoreHistory.MatchTextOf | save-config-pro_1.0-1/opt/save-config-pro/view/historique_restauration.py:101 | the text read from a match depends only on the nineteen matched characters |
| RestoreHistory.ExtractDateOfStampedName | save-config-pro_1.0-1/opt/save-config-pro/view/historique_restauration.py:95-105 | a backup file name carrying a %Y-%m-%d_%H-%M-%S stamp shows that stamp's minute |
| RestoreHistory.TableRows | save-config-pro_1.0-1/opt/save-config-pro/view/historique_restauration.py:114-132 | one row per journal entry, in journal order |
| RestoreHistory.RestoredEntryRow | save-config-pro_1.0-1/opt/save-config-pro/view/historique_restauration.py:114-132 | the entry of a successful restoration shows its execution minute, the device's MAC, the file used and that file's date |
| RestoreHistory.FailedEntryRow | save-config-pro_1.0-1/opt/save-config-pro/view/historique_restauration.py:114-132 | the entry of a failed restoration shows "N/A" for the MAC, the file and the file date |
| RestoreHistory.ClickFindsEntry | save-config-pro_1.0-1/opt/save-config-pro/view/historique_restauration.py:140-171 | double-clicking the row of an entry with a user and a readable date opens that entry or an earlier one of the same user executed in the same minute |
| RestoreHistory.WithoutMeaning | save-config-pro_1.0-1/opt/save-config-pro/view/historique_restauration.py:262-266 | the deletion keeps exactly the entries whose date or user differ from the target's, is idempotent, and shortens a journal holding the target |
| RestoreHistory.Screen.LoadHistory | save-config-pro_1.0-1/opt/save-config-pro/view/historique_restauration.py:107-138 | a parsed journal replaces the table with its rows; a missing or undecodable file leaves the table; a non-list empties the table and raises |
| RestoreHistory.Screen.BuildRows | save-config-pro_1.0-1/opt/save-config-pro/view/historique_restauration.py:114-132 | the insertion loop yields TableRows of the journal |
| RestoreHistory.Screen.OnRowClick | save-config-pro_1.0-1/opt/save-config-pro/view/historique_restauration.py:140-178 | the click opens the matching entry only when no detail window is open; otherwise the window stays as it was |
| RestoreHistory.Screen.CloseDetail | save-config-pro_1.0-1/opt/save-config-pro/view/historique_restauration.py:178 | closing the window leaves no detail window |
| RestoreHistory.Screen.DeleteEntry | save-config-pro_1.0-1/opt/save-config-pro/view/historique_restauration.py:255-276 | a readable journal loses every entry with the target's date and user, the window is closed and the table reloaded; an unreadable journal changes nothing |
| RestoreHistory.Screen.DeleteAll | save-config-pro_1.0-1/opt/save-config-pro/view/historique_restauration.py:278-286 | the journal and the table are empty |
| UserHistory.Screen.constructor | save-config-pro_1.0-1/opt/save-config-pro/view/historique_users.py:12-17 | the screen starts with the history file it is given, an empty history and an empty table |
| UserHistory.CellDash | save-config-pro_1.0-1/opt/save-config-pro/view/historique_users.py:112-113 | a date cell is the dash exactly when the date is missing, null or empty, and the date itself otherwise |
| UserHistory.RowMeaning | save-config-pro_1.0-1/opt/save-config-pro/view/historique_users.py:109-129 | the action is "Entrée" when only a connection date is present, "Sortie" whenever a disconnection date is, the dash otherwise; the row is "Refusée" and tagged exactly when tentative is set |
| UserHistory.TableRows | save-config-pro_1.0-1/opt/save-config-pro/view/historique_users.py:109-129 | one row per history entry, in history order |
| UserHistory.LoginVisitRow | save-config-pro_1.0-1/opt/save-config-pro/view/historique_users.py:109-129 | a login attempt recorded at a moment shows as an entry of that user at that moment, refused exactly when the attempt failed |
| UserHistory.LogoutVisitRow | save-config-pro_1.0-1/opt/save-config-pro/view/deconnexion.py:74-78 | the entry the logout dialog appends shows as an allowed exit of that user at that moment |
| UserHistory.DeleteMeaning | save-config-pro_1.0-1/opt/save-config-pro/view/historique_users.py:155-165 | deleting an "Entrée" row removes exactly the user's entries with that connection date, a "Sortie" row those with that disconnection date, a dash row nothing; an entry without a user is never removed |
| UserHistory.DeleteOwnRow | save-config-pro_1.0-1/opt/save-config-pro/view/historique_users.py:155-165 | deleting the row of an entry that has a user and an action removes that entry |
| UserHistory.Screen.Load | save-config-pro_1.0-1/opt/save-config-pro/view/historique_users.py:101-107 | a parsed file replaces the history, an undecodable one empties it, a missing one keeps it, and a non-list is reported |
| UserHistory.Screen.Refresh | save-config-pro_1.0-1/opt/save-config-pro/view/historique_users.py:109-129 | the table is rebuilt as TableRows of the history |
| UserHistory.Screen.BuildRows | save-config-pro_1.0-1/opt/save-config-pro/view/historique_users.py:111-129 | the insertion loop yields TableRows of the entries |
| UserHistory.Screen.DeleteRow | save-config-pro_1.0-1/opt/save-config-pro/view/historique_users.py:138-172 | the history loses the entries behind the row, is written back and shown again |
| UserHistory.Screen.DeleteAll | save-config-pro_1.0-1/opt/save-config-pro/view/historique_users.py:131-136 | the history, the file and the table are empty |
| Auth.Decide | save-config-pro_1.0-1/opt/save-config-pro/view/auth.py:334-366 | the outcome is the placeholder error exactly when a field still shows its placeholder, the unknown-user error exactly when the name is then not a user, then the wrong-password error exactly when the stored hash differs from the hash of the typed password, and the refusal exactly when the hashes match and the account is not enabled, so the password is checked before the status |
| Auth.LoggedInIff | save-config-pro_1.0-1/opt/save-config-pro/view/auth.py:339-359 | a login succeeds exactly when neither field is a placeholder, the user exists, the stored password is the hash of the typed one and the account's status is set |
| Auth.AfterLoginChanges | save-config-pro_1.0-1/opt/save-config-pro/view/auth.py:352-355 | an attempt changes no other account; a failed one changes nothing; a success sets only the connection flag and the last login of that account |
| Auth.LoginRecordsOneVisit | save-config-pro_1.0-1/opt/save-config-pro/view/auth.py:312-366 | every attempt appends exactly one entry to a readable history and keeps the earlier ones; it is a connection, marked as a refused attempt exactly when the login failed |
| Auth.CheckNewAccount | save-config-pro_1.0-1/opt/save-config-pro/view/auth.py:379-388 | the form is refused as incomplete exactly when a field shows its placeholder, and as taken exactly when the username then already exists |
| Auth.CreatedIff | save-config-pro_1.0-1/opt/save-config-pro/view/auth.py:379-388 | an account is created exactly when no field is a placeholder, the username is new, and the stripped username and password have at least 3 and 4 characters |
| Auth.LastIndex | save-config-pro_1.0-1/opt/save-config-pro/view/auth.py:394 | the position of the last occurrence of a character, or -1 when there is none |
| Auth.Ext | save-config-pro_1.0-1/opt/save-config-pro/view/auth.py:394 | the extension is empty or a suffix of the path that starts with its only dot and holds no slash |
| Auth.PhotoName | save-config-pro_1.0-1/opt/save-config-pro/view/auth.py:390-395 | "default.png" unless an image path was chosen; then the username followed by the image's extension |
| Auth.NewAccountDisabled | save-config-pro_1.0-1/opt/save-config-pro/view/auth.py:401-411 | a freshly created account is refused at login, even with the right password, until its status is set |
| Auth.CreateKeepsOthers | save-config-pro_1.0-1/opt/save-config-pro/view/auth.py:401-413 | creating an account adds the username at the end with the new account, keeps every other account and keeps the usernames distinct |
| Auth.LoginFrame.constructor | save-config-pro_1.0-1/opt/save-config-pro/view/auth.py:79-103 | the frame starts with the users file and history it is given, nobody logged in and no image chosen |
| Auth.LoginFrame.RecordVisit | save-config-pro_1.0-1/opt/save-config-pro/view/auth.py:312-332 | the history becomes the readable history plus the new entry; a file that is JSON but not a list raises |
| Auth.LoginFrame.Login | save-config-pro_1.0-1/opt/save-config-pro/view/auth.py:334-366 | the outcome is Decide's, the users file changes as AfterLogin says, one visit is recorded, and only a success whose visit is recorded logs the user in |
| Auth.LoginFrame.ChooseImage | save-config-pro_1.0-1/opt/save-config-pro/view/auth.py:162-185 | a picked path becomes the chosen image, even one that fails to open; a cancelled dialog keeps the previous choice |
| Auth.LoginFrame.CreateAccount | save-config-pro_1.0-1/opt/save-config-pro/view/auth.py:371-415 | the outcome is CheckNewAccount's; a refused form leaves the users file as it was; an accepted one adds the new, disabled account under its username |
| UserAdmin.CountsOf | save-config-pro_1.0-1/opt/save-config-pro/view/users.py:180-184 | the status line counts every account, the enabled ones and the connected ones; neither of the last two exceeds the first |
| UserAdmin.TableRows | save-config-pro_1.0-1/opt/save-config-pro/view/users.py:206-216 | one row per account, in the dict's order |
| UserAdmin.RowsAgreeWithCounts | save-config-pro_1.0-1/opt/save-config-pro/view/users.py:180-216 | as many rows say "Activé" as there are enabled accounts, and as many say "Connecté" as there are connected ones |
| UserAdmin.Toggled | save-config-pro_1.0-1/opt/save-config-pro/view/users.py:334-335 | the status becomes the negation of its truthiness |
| UserAdmin.ToggleTwice | save-config-pro_1.0-1/opt/save-config-pro/view/users.py:334-335 | two toggles restore whether the account is enabled, and restore the account itself exactly when its status was stored |
| UserAdmin.EditKeepsTheRest | save-config-pro_1.0-1/opt/save-config-pro/view/users.py:320-323 | editing changes only the name, the first name and the role, so neither status nor connection |
| UserAdmin.CountReplace | save-config-pro_1.0-1/opt/save-config-pro/view/users.py:180-184 | replacing an account changes a count by what the old and new accounts contribute |
| UserAdmin.ToggleCounts | save-config-pro_1.0-1/opt/save-config-pro/view/users.py:334-338 | a toggle moves the enabled count by one in the matching direction and leaves the total and the connected count alone |
| UserAdmin.EditCounts | save-config-pro_1.0-1/opt/save-config-pro/view/users.py:320-325 | an edit leaves every count as it was |
| UserAdmin.DeleteMeaning | save-config-pro_1.0-1/opt/save-config-pro/view/users.py:66-70 | deleting removes that username and no other account: one account less when it existed, nothing otherwise, and the usernames stay distinct |
| UserAdmin.RestartRule | save-config-pro_1.0-1/opt/save-config-pro/view/users.py:50-59 | the application restarts exactly when the logged-in user deleted their own account or no account is left |
| UserAdmin.Manager.constructor | save-config-pro_1.0-1/opt/save-config-pro/view/users.py:22-31 | the screen starts with no accounts, an empty table and zero counts, over the given file, images and logged-in user |
| UserAdmin.Manager.Load | save-config-pro_1.0-1/opt/save-config-pro/view/users.py:186-195 | a parsed file gives its accounts; a missing or unreadable one gives none |
| UserAdmin.Manager.Count | save-config-pro_1.0-1/opt/save-config-pro/view/users.py:180-184 | the counting loops yield CountsOf the accounts |
| UserAdmin.Manager.BuildRows | save-config-pro_1.0-1/opt/save-config-pro/view/users.py:207-216 | the row loop yields TableRows of the accounts |
| UserAdmin.Manager.Refresh | save-config-pro_1.0-1/opt/save-config-pro/view/users.py:206-224 | the table and the counts are rebuilt from the accounts |
| UserAdmin.Manager.DeleteAccount | save-config-pro_1.0-1/opt/save-config-pro/view/users.py:45-82 | the account and its .png, .jpg and .jpeg images go, the file is saved, the restart follows RestartRule, and without a restart the table and counts are refreshed |
| UserAdmin.Manager.Toggle | save-config-pro_1.0-1/opt/save-config-pro/view/users.py:334-338 | the account's status is toggled, the file saved, the table and counts refreshed |
| UserAdmin.Manager.SaveChanges | save-config-pro_1.0-1/opt/save-config-pro/view/users.py:320-325 | the account's name, first name and role are replaced, the file saved, the table and counts refreshed |
| Vsftpd.OptionsWellFormed | save-config-pro_1.0-1/opt/save-config-pro/view/composants/menu_universel.py:142-148 | the five enforced options have word keys and one-line values, and no key starts another |
| Vsftpd.SettingBegins | save-config-pro_1.0-1/opt/save-config-pro/view/composants/menu_universel.py:159 | the line written for an option starts with its key |
| Vsftpd.KeyIndex | save-config-pro_1.0-1/opt/save-config-pro/view/composants/menu_universel.py:157-161 | the first option whose key the stripped line starts with, or none when no key starts it |
| Vsftpd.Pass | save-config-pro_1.0-1/opt/save-config-pro/view/composants/menu_universel.py:154-163 | the first loop gives one line per input line, rewritten by Rewritten |
| Vsftpd.UpdateLines | save-config-pro_1.0-1/opt/save-config-pro/view/composants/menu_universel.py:154-168 | the two loops yield Rewrite of the lines read |
| Vsftpd.FirstKey | save-config-pro_1.0-1/opt/save-config-pro/view/composants/menu_universel.py:156-163 | the inner loop stops at KeyIndex of the line |
| Vsftpd.AnyLineBegins | save-config-pro_1.0-1/opt/save-config-pro/view/composants/menu_universel.py:167 | the scan reports whether some line starts with the key |
| Vsftpd.Absent | save-config-pro_1.0-1/opt/save-config-pro/view/composants/menu_universel.py:166-168 | the options no input line starts with, in option order, are some of the options |
| Vsftpd.AbsentMember | save-config-pro_1.0-1/opt/save-config-pro/view/composants/menu_universel.py:166-168 | every option no input line starts with is absent |
| Vsftpd.AbsentNotBegun | save-config-pro_1.0-1/opt/save-config-pro/view/composants/menu_universel.py:166-168 | an absent option is one no input line starts with |
| Vsftpd.AbsentEmpty | save-config-pro_1.0-1/opt/save-config-pro/view/composants/menu_universel.py:166-168 | when every key starts some line nothing is appended |
| Vsftpd.AbsentAll | save-config-pro_1.0-1/opt/save-config-pro/view/composants/menu_universel.py:166-168 | when no key starts any line every option is appended |
| Vsftpd.RewrittenBegins | save-config-pro_1.0-1/opt/save-config-pro/view/composants/menu_universel.py:157-163 | a rewritten line starts with a key exactly when the input line did |
| Vsftpd.PassBegins | save-config-pro_1.0-1/opt/save-config-pro/view/composants/menu_universel.py:154-163 | the first loop keeps which keys start some line |
| Vsftpd.AppendedIsAbsent | save-config-pro_1.0-1/opt/save-config-pro/view/composants/menu_universel.py:166-168 | after m turns of the second loop the first loop's lines are followed by the lines of the absent options among the first m |
| Vsftpd.RewriteShape | save-config-pro_1.0-1/opt/save-config-pro/view/composants/menu_universel.py:154-168 | the rewrite is the first loop's lines followed by one line per absent option, in option order, so it has that many more lines than the input |
| Vsftpd.KeptInPlace | save-config-pro_1.0-1/opt/save-config-pro/view/composants/menu_universel.py:154-163 | input lines stay in place and in order: one no key starts is kept, one a key starts becomes that first key's setting |
| Vsftpd.CommentKept | save-config-pro_1.0-1/opt/save-config-pro/view/composants/menu_universel.py:157-163 | a commented line such as #write_enable=NO starts with no key, so it is neither replaced nor removed |
| Vsftpd.EveryKeyBegins | save-config-pro_1.0-1/opt/save-config-pro/view/composants/menu_universel.py:154-168 | after the rewrite every option key starts at least one line |
| Vsftpd.SettingFixed | save-config-pro_1.0-1/opt/save-config-pro/view/composants/menu_universel.py:157-159 | an option's own line is recognised as that option's line |
| Vsftpd.RewrittenFixed | save-config-pro_1.0-1/opt/save-config-pro/view/composants/menu_universel.py:157-163 | rewriting a rewritten line changes nothing |
| Vsftpd.RewriteIdempotent | save-config-pro_1.0-1/opt/save-config-pro/view/composants/menu_universel.py:154-168 | running the rewrite on its own output changes nothing |
| Vsftpd.RewriteTerminated | save-config-pro_1.0-1/opt/save-config-pro/view/composants/menu_universel.py:154-168 | the rewrite of terminated lines is terminated lines |
| Vsftpd.ListenRewrite | save-config-pro_1.0-1/opt/save-config-pro/view/composants/menu_universel.py:151-168 | the file listen=YES without a final line break is kept and followed by all five options |
| Vsftpd.GluedLastLine | save-config-pro_1.0-1/opt/save-config-pro/view/composants/menu_universel.py:151-172 | as written: after the rewrite of listen=YES without a final line break, read back, no line starts with write_enable |
| Vsftpd.Terminate | save-config-pro_1.0-1/opt/save-config-pro/view/composants/menu_universel.py:151-152 | only the last line read gets a line break, and only when it has none |
| Vsftpd.TerminateWellSplit | save-config-pro_1.0-1/opt/save-config-pro/view/composants/menu_universel.py:151-152 | lines as readlines gives them are all terminated once the last one is |
| Vsftpd.FixedTextHasEveryKey | save-config-pro_1.0-1/opt/save-config-pro/view/composants/menu_universel.py:151-172 | corrected: read back, the written text has the rewritten lines, so every option key starts one of its lines |
| Vsftpd.FixedTextIdempotent | save-config-pro_1.0-1/opt/save-config-pro/view/composants/menu_universel.py:151-172 | corrected: running the rewrite on its own output changes nothing |
| Vsftpd.FixedAgrees | save-config-pro_1.0-1/opt/save-config-pro/view/composants/menu_universel.py:151-172 | on a file ending in a line break, and on an empty file, the corrected rewrite writes what the original does |

## Left out

- Tk widgets, layout, dialogs and confirmation boxes. Each screen operation is modelled from the point where its confirmation has been given.
- Threads, timers and locks. The scheduler's self-rescheduling timer and the backup thread become the explicit steps `Tick` and `RunCycle`, with no timing claims. The loading worker of the other screens runs its task and then its callback in sequence.
- The scheduler's weak-reference callbacks, with their dependence on garbage collection.
- External programs and the network: nmap, ping, arp and `ip neigh`, the SSH login, ansible-playbook, psutil and `socket` address discovery, and the prompt for an FTP address. Each is an input. The exit codes of a cycle's playbooks are an input of `RunCycle`.
- The run of the restore playbook at the end of `generate_restore_files`. Its failures are caught and only printed.
- `socket.inet_aton` is an input function from text to a 32-bit value, so the exact set of texts it accepts is not modelled.
- The Windows branch of the ARP lookup. Only the Linux and Cisco parsing of ARP output is modelled.
- JSON encoding and decoding, directory listing and deletion mechanics. A file is one of: missing, unreadable, valid JSON of the wrong kind, or parsed. A dict is an ordered list of pairs. A JSON null and a missing key are both `None`.
- Write failures: every write of a JSON file or of a workspace file is taken to succeed.
- SHA-256 is an input function `hash`.
- The clock. Timestamps are given as text, and epoch times in whole seconds rather than as floats.
- Auth.LoginFrame.Login: one `now` is used for the last-login field and the history entry. The code reads the clock twice.
- Only the zero-padded timestamp forms are read. The lenient parsing `strptime` also accepts, such as one-digit fields, is not modelled.
- Flags (`status`, `connexion`, `tentative`, `sauvegarde`) are booleans or absent. Python truthiness of other JSON values is not modelled.
- Auth.LoginFrame.Login: an account without a `password` key raises a KeyError in the code. The model's accounts always hold a password.
- Auth.LoginFrame: an unreadable `users.json` raises in `charger_utilisateurs`. The model starts from a parsed dict.
- UserAdmin.TableRows: a JSON null role makes `capitalize` raise in the code. The model shows it like a missing role.
- UserHistory.Screen.Load: a file that is valid JSON but not a list is reported and gives an empty history. The code keeps that value and raises later when the table is built.
- UserAdmin.Manager.Load: a file that is valid JSON but not a dict gives no accounts. The code keeps that value and fails later when it is used.
- SavedNetworks.Screen.LoadNetworks: JSON that is not a list of strings is treated like an unreadable file. The code stores it as it is.
- The copy of the chosen profile image into the profiles folder. The profile images are a set of file names, and a removal that fails is not modelled.
- `_graceful_restart`: the restart itself (`os.execl`) ends the model's run. Only whether it happens is modelled.
- The JSON exports (`exporter_historique`, `export_to_json`), the listing and deletion of backup files in the restore window, and their sorting by modification time.
- The other steps of the server reinstall around `update_vsftpd_conf` (apt, systemctl, user creation). A missing `/etc/vsftpd.conf` is not modelled: the rewrite starts from the lines read.
- Text is Unicode code points with ASCII case mapping and whitespace. Python's full Unicode `lower`, `upper`, `strip` and `\w` are not modelled.
- Text.Lines: only '\n' ends a line. Python's `splitlines` also breaks at '\r', '\x0b', '\x0c', '\x1c' to '\x1e', '\x85', '\u2028' and '\u2029'.
- JSON of the wrong kind is one case, so an empty non-list value such as `{}` or `""` is handled like any other wrong value. The code iterates such a value as nothing. The members this affects are listed next.
- BackupCisco.CiscoRun: an empty non-list registry makes the model raise, while the code runs with no device.
- Restoration.RowsOf: an empty non-list vendor file gives `Err`, while the code adds no rows.
- BackupHistory.Screen.LoadHistory, BackupHistory.Screen.OnRowClick, BackupHistory.Screen.DeleteEntry: an empty non-list log is reported or refused, while the code shows an empty table.
- RestoreHistory.Screen.LoadHistory, RestoreHistory.Screen.OnRowClick, RestoreHistory.Screen.DeleteEntry: the same for an empty non-list journal.
- Scan.DeleteEquipment: an empty non-list registry makes the model raise, while the code writes an empty list.

## Findings

| source | as written | input that shows it | evidently intended | confidence | as-written member | corrected member |
|---|---|---|---|---|---|---|
| save-config-pro_1.0-1/opt/save-config-pro/view/composants/menu_universel.py:151-172 | the rewritten lines are written back as read, so a last line without a final line break gets the first appended option glued onto it | a configuration whose text is `listen=YES` with no final line break: the file written holds `listen=YESwrite_enable=YES`, and read back no line starts with `write_enable` | every enforced option starts a line of the written file | not executed | Vsftpd.GluedLastLine | Vsftpd.FixedTextHasEveryKey |
