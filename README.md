# GRUB reboot for GNOME Shell — verified model of its core

The extension adds a "..." button to GNOME Shell's power-off dialog. Pressing
it opens a menu of the GRUB boot entries; picking one runs
`pkexec … grub-reboot '<title>'` so that the next boot starts that entry, and
when that command succeeds the dialog goes on to reboot.

This project models the logic under that wiring, all of it in
`extension.js`:

- `scanner.dfy` (module `Scanner`): `populatePopup`. It reads the configuration
  line by line through a `LineStream` class and stops at end of input or when
  the line counter passes 600. It matches each line against
  `/^menuentry ['"]([^'"]+)/` with a hand-written matcher, offers one title per
  matching line, and closes the stream. The specification functions are
  `MatchEntry` (one line), `Titles` and `ScannedTitles` (a file).
  `scanner_examples.dfy` works through concrete lines: both quote styles,
  ignored lines, and a file with a nested submenu.
- `locator.dfy` (module `Locator`): `getFile` and `findFile`. The file system
  is a tree of `Node`s: directories with their children in enumeration order,
  regular files, and other nodes. `Search` is the value `findFile` computes.
  `FindFile` is the loop-and-recursion method, proved equal to it. `GetFile`
  takes the answers of the two file-type queries and the tree at `/boot/efi`.
- `command.dfy` (module `Command`): the command line built by `addPopupItem`
  and the rule that only exit status 0 lets the dialog close and confirm.
- `dialog.dfy` (module `Dialog`): how `enable` and `disable` change
  `confirmButtons`, and the list the replacement `_updateButtons` builds. The
  module globals `backupButton` and `backupButtonIdx` and the list they refer
  to are the fields of class `Extension`. Its methods are proved against the
  pure transitions `Enabled` and `Disabled`.
- `wrappers.dfy`: `Option`, standing for JavaScript's `undefined`/`null`.

Behaviour as the code has it:
- The loop tests `count++ > 600`, so lines 0 to 600 are examined: 601 lines,
  not 600. Line 601 is still read from the stream before the loop breaks.
- The pattern needs exactly one literal space after `menuentry`. A tab or two
  spaces do not match.
- The title is the longest run up to the first quote of EITHER kind, whichever
  kind opened it. So `menuentry 'It"s here'` yields `It`.
- The title is wrapped in single quotes and nothing more; no escaping is done.
  The quoted argument is the exact title because the scanner never yields a
  title with a quote in it (`Command.ScannedTitleQuotedIntact`). A title with
  a `'` would close the quoted segment early (`Command.QuotedArgumentIsTitle`).
- UEFI mode means `/sys/firmware/efi` answers DIRECTORY to a query that does
  not follow links. The indirection means `/etc/grub2-efi.cfg` answers
  SYMBOLIC_LINK to the same kind of query.
- `backupButtonIdx` is `buttonIdx + 1`. When there is no reboot button,
  `buttonIdx` is `undefined`, so the index is NaN, and the saved button keeps
  its earlier value. `init` and every `disable` clear the saved button and
  set the index to -1 (lines 49-50 and 225-226; `Dialog.Disabled`). From that
  state, `disable` undoes `enable` (`Dialog.DisableUndoesEnable`). A saved
  button is left over only when `enable` runs a second time without a
  `disable` in between. If the list then holds no reboot button,
  `disable` calls `splice(NaN, 1)`, which removes the first button and keeps
  the menu button (`Dialog.StaleBackupRemovesFirst`).

## Model

| member | source | states |
|---|---|---|
| `Scanner.QuoteFreeRun` | extension.js:153 | the greedy `[^'"]` run: a quote-free prefix that ends at a quote or at the end of the text |
| `Scanner.MatchEntry` | extension.js:153 | every title a line yields is non-empty and holds no quote of either kind |
| `Scanner.MatchEntryIff` | extension.js:153 | a line yields `t` if and only if it is the keyword `menuentry`, one space, a quote of either kind, then `t` as a non-empty quote-free run up to the next quote or the end; so the title is unique |
| `Scanner.EntryOf` | extension.js:157-160 | a line contributes at most one title, and a title exactly when the pattern captures it from that line |
| `Scanner.Titles` | extension.js:155-161 | at most one title per line, and every title is non-empty and quote-free |
| `Scanner.ScannedTitles` | extension.js:154-161 | at most min(#lines, 601) titles, each non-empty and quote-free |
| `Scanner.TitlesAppend` | extension.js:155-161 | scanning two consecutive pieces gives the first piece's titles followed by the second's (file order kept) |
| `Scanner.IgnoredLine` | extension.js:157-160 | a non-matching line contributes nothing wherever it stands |
| `Scanner.TitlesMembership` | extension.js:157-160 | a title is offered if and only if some line captures it |
| `Scanner.TitlesOfMatchingLines` | extension.js:155-161 | when every line matches, there is one title per line and the k-th title is the k-th line's |
| `Scanner.ScanBoundOnMatchingLines` | extension.js:156 | a file of matching lines yields exactly min(#lines, 601) titles |
| `Scanner.LinesPastBoundIgnored` | extension.js:156 | lines after index 600 never change the result |
| `Scanner.LineStream.Open` | extension.js:151 | a freshly opened stream is at its first line and not closed |
| `Scanner.LineStream.ReadLine` | extension.js:155 | reading yields the next line and advances, or yields end of input at the end and stays there |
| `Scanner.LineStream.Close` | extension.js:162 | the stream is closed afterwards |
| `Scanner.PopulatePopup` | extension.js:148-163 | the offered titles are those of lines 0 to 600 in order; the stream is closed on both exits; min(#lines, 602) lines are read |
| `ScannerExamples.KeywordLine` | extension.js:153 | keyword, opening quote, title, then a quote or the end: that title is captured |
| `ScannerExamples.SingleQuoted` | extension.js:153 | `menuentry 'Ubuntu, with Linux 5.15' {` yields `Ubuntu, with Linux 5.15` |
| `ScannerExamples.DoubleQuoted` | extension.js:153 | `menuentry "Windows Boot Manager"` yields `Windows Boot Manager` |
| `ScannerExamples.MixedQuotes` | extension.js:153 | a single-quoted title stops at a double quote inside it |
| `ScannerExamples.IgnoredShapes` | extension.js:153 | indented, commented, `submenu`, double-spaced and empty-title lines yield nothing |
| `ScannerExamples.NestedSubmenuExample` | extension.js:148-163 | a file with a nested submenu yields its two top-level entries, in order |
| `Locator.Visit` | extension.js:187-192 | whatever one child yields lies under the directory being searched |
| `Locator.SearchChildren` | extension.js:186-193 | whatever the children yield lies under the directory being searched |
| `Locator.Search` | extension.js:183-196 | whatever the search yields lies under the start directory |
| `Locator.SearchSound` | extension.js:186-192 | any path found is `<dir>/grub.cfg` for a directory of the tree that directly holds a regular `grub.cfg` |
| `Locator.SearchComplete` | extension.js:183-196 | if some directory of the tree holds a regular `grub.cfg`, the search finds a path |
| `Locator.SearchFindsIff` | extension.js:183-196 | the search yields nothing if and only if no directory of the tree holds a regular `grub.cfg` |
| `Locator.FirstHitWins` | extension.js:186 | children are visited in enumeration order, and the first child that yields a path decides the result |
| `Locator.NoHitNothing` | extension.js:186-193 | when no child yields anything the directory yields nothing |
| `Locator.FindFile` | extension.js:180-197 | the loop with its `!rv` guard and its recursion computes exactly `Search`: nothing for a non-directory, the first hit otherwise |
| `Locator.UefiIndirection` | extension.js:170-171 | the indirection needs both queries to find their path, a link at `/etc/grub2-efi.cfg` (a regular file there does not count), and a real directory at `/sys/firmware/efi` (a link to one does not count, since links are not followed) |
| `Locator.GetFile` | extension.js:165-178 | the result differs from `/boot/grub/grub.cfg` exactly when the link is a symbolic link, the firmware directory is a directory, and the tree under `/boot/efi` holds a `grub.cfg`; it is then such a `grub.cfg` |
| `Locator.GetFileNamesConfig` | extension.js:165-178 | the result always names a file called `grub.cfg`, never nothing |
| `Locator.NoIndirectionFallsBack` | extension.js:170-176 | without both markers the fallback is returned whatever `/boot/efi` holds |
| `Locator.IndirectionUsesSearch` | extension.js:170-173 | with both markers and a `grub.cfg` under `/boot/efi`, the search result is returned |
| `Command.RebootCommand` | extension.js:201 | the command line is the fixed launcher, then the title between two single quotes, and nothing else |
| `Command.FirstQuoted` | extension.js:201 | a single-quoted segment is found if and only if the text holds at least two single quotes |
| `Command.FirstQuotedSplits` | extension.js:201 | the first single-quoted segment of a command line is delimited by two quotes, with no quote before it or inside it |
| `Command.FirstQuotedOf` | extension.js:201 | text made of a quote-free prefix, a quote, a quote-free segment, a quote and a rest is read back as exactly those pieces |
| `Command.LauncherQuoteFree` | extension.js:201 | the fixed part of the command holds no single quote |
| `Command.QuotedArgumentIsTitle` | extension.js:201 | the first single-quoted segment of the command is exactly the title and ends the line, if and only if the title holds no `'` |
| `Command.ScannedTitleQuotedIntact` | extension.js:201 | every title the scanner offers reaches grub-reboot as one intact quoted argument |
| `Command.OnCommandExit` | extension.js:202-209 | the dialog closes and confirms the reboot signal if and only if the exit status is exactly 0 |
| `Dialog.FirstReboot` | extension.js:66-71 | the index found is the first button whose signal is `ConfirmedReboot`, or there is none |
| `Dialog.SpliceOut` | extension.js:216 | JavaScript `splice(start, 1)`: exactly one button goes when the list is not empty and the start is NaN (read as 0), negative (counted from the end, clamped to 0) or below the length; otherwise the list is unchanged |
| `Dialog.Pop` | extension.js:218 | JavaScript `pop()`: the last button goes, and an empty list stays empty |
| `Dialog.Enabled` | extension.js:61-101 | the list grows by one; with a reboot button, the FIRST one is saved, the index is the position just past it, and the menu button is inserted there with every other button kept in order; without one, the index is NaN, the saved button is kept and the menu button is appended |
| `Dialog.Disabled` | extension.js:214-226 | the saved button is cleared and the index reset to -1; with a saved button the list is spliced at the saved index (`SpliceOut`), without one the last button goes; at most one button goes |
| `Dialog.EnablePlacement` | extension.js:66-101 | `enable` inserts the menu button just after the first reboot button, or at the end when there is none, and keeps every other button in order |
| `Dialog.DisableUndoesEnable` | extension.js:214-226 | from the state `init` and `disable` leave, `enable` then `disable` restores the list, the saved button (null) and the index (-1) |
| `Dialog.StaleBackupRemovesFirst` | extension.js:93-101 | with a leftover saved button and no reboot button, `disable` removes the first button instead of the menu button |
| `Dialog.Shown` | extension.js:121-141 | a confirm button is dropped exactly when its type is set and is not `menu`; otherwise it keeps its text and signal, as a menu toggle when its type is `menu` and as a confirm button when it has none |
| `Dialog.ShownAll` | extension.js:115-142 | at most one dialog button per confirm button, and never a Cancel |
| `Dialog.DialogButtons` | extension.js:107-145 | Cancel comes first and only first, then at most one button per confirm button |
| `Dialog.ShownWithMenu` | extension.js:107-145 | with the menu button at position `k`, the dialog shows the buttons before it, the menu toggle, then the buttons after it |
| `Dialog.ShownAllAppend` | extension.js:115-142 | rebuilding two consecutive pieces gives the first piece's buttons followed by the second's |
| `Dialog.ShownAllMembership` | extension.js:115-142 | a dialog button appears if and only if some confirm button is shown as it |
| `Dialog.OtherTypeDropped` | extension.js:121-141 | a button whose type is neither undefined nor `menu` is dropped |
| `Dialog.EnabledDialogShowsMenu` | extension.js:61-145 | for the shutdown-type dialog content that `enable` changes (the replacement `_updateButtons` reads the content of the dialog's own type), the list the replacement builds after `enable` is the one it builds from the list before `enable`, in order, with the menu toggle inserted where `enable` placed the menu button: one button more |
| `Dialog.UpdateButtons` | extension.js:107-145 | the loop builds Cancel first, then one button per confirm button of undefined or `menu` type, in list order |
| `Dialog.Extension.Init` | extension.js:47-51 | the saved button is null and the index -1 |
| `Dialog.Extension.Enable` | extension.js:61-101 | the search loop and the splice or push give exactly the `Enabled` state |
| `Dialog.Extension.Disable` | extension.js:214-226 | the splice at the saved index or the pop, then the reset, give exactly the `Disabled` state |
| `Dialog.EnableThenDisable` | extension.js:47-226 | on the class, `init` (lines 47-51), `enable` (61-101) and `disable` (214-226) leave the list, the saved button and the index as `init` set them |

## Left out

- The GNOME Shell UI is not modelled: the popup menu, its actors and `toggle`, `setButtons`, the `closed` signal and `_confirm`. Dialog buttons are modelled only by their kind, text and signal.
- Swapping the dialog's `cancel` and `_updateButtons` in and out (lines 103-107, 222, 228), the `cancel` wrapper (53-59) and `popupMenu` are not modelled; they exchange function values that the model does not represent.
- File I/O goes through Gio and is not modelled. The configuration is a sequence of lines, the file system a `Node` tree, and the file-type queries are parameters. A failure to open the file (line 151) is not caught by the code and is not modelled. The enumerator's `close` (line 194) is not modelled.
- Scanner.PopulatePopup: a failing `read_line` (line 155) is not modelled. In GJS it throws, the code does not catch it, and `stream.close` (line 162) is then skipped, leaving the stream open. The model's stream cannot fail, so "closed on both exits" covers only end of input and the line bound.
- Locator.GetFile: a failing `enumerate_children` (line 184) or `next_file` (line 186) is not modelled. In GJS either one throws out of `findFile` and out of `getFile` (line 172), so the fallback at lines 174-176 is never reached. The model's `Node` tree cannot fail, so `GetFile` and `GetFileNamesConfig` always yield a path.
- The values `read_line` returns in GJS, and their JavaScript truthiness, are not modelled. End of input is the only way the stream runs dry.
- `Utils.trySpawnCommandLine` is in `utils.js`, which is not part of this model. Spawning, pkexec, grub-reboot and the asynchronous callback are out; the exit status is a parameter. "The quoted argument" means the text between the first two single quotes, not a full shell parse.
- Translations are not modelled (`G_`, `_`, `initTranslations`). The menu button's text is the untranslated `...`.
- `Node` carries a node's type as enumeration reports it. How symbolic links inside `/boot/efi` resolve is not modelled.
