# xCAT node-status monitoring page, modelled in Dafny

This project models the logic of the xCAT web UI page `xCAT-UI/monitor/stat_mon.php`.
For one monitoring plug-in, the page shows whether node status monitoring and
application status monitoring are enabled. It also offers a button that toggles
node status monitoring.

The page holds two pieces of logic, and the model has one module for each, plus
one for the tokenizer they rely on:

- `PregSplit` (`preg_split.dfy`) models PHP's `preg_split("/\s+/", $data)` exactly,
  as a function over `seq<char>`. The subject is cut at every maximal run of the six
  characters `\s` matches in PCRE 8.34 and later and in PCRE2 (space, tab, line feed,
  vertical tab, form feed, carriage return). Every piece is kept, so leading white space yields an empty
  first piece and trailing white space an empty last piece. The lemmas show that
  splitting and joining with single spaces are inverses on every list of pieces a
  split can produce, and that the split ignores the length and kind of each
  white-space run, while the number of pieces depends only on how many runs there are.
- `StatMon` (`stat_mon.dfy`) models the server side. The `monls` reply is either
  the error list, which stops the page, or the data records grouped by response.
  Each record is classified `Enabled` when its split has a third piece (the
  `isset($nodemonstatus)` test) and `Disabled` otherwise. The nested `foreach` loop
  is a method that overwrites `$ns` record by record, so the last record decides.
  With no record at all `$ns` stays unset, which the model gives as `None`. The
  result is a one-row table keyed by the plug-in name, whose application status is
  always `Disabled`.
- `NodeStatControl` (`node_stat_control.dfy`) models the JavaScript handler
  `node_stat_control`. The button is a class whose `text` field is the label. A
  click sends a request only when the label is `Enable` or `Disable`. The reply
  callback writes the opposite word only when the reply is exactly `successful`.
  Click and callback are separate methods, so replies that arrive after other
  clicks can be described. `Step` is the pure transition for a click answered at
  once.

Where the evident intent of the page (the plug-in is enabled if any node is
monitored) and its code disagree, the model follows the code:

- The code keeps the status of the last record, not "enabled if any record is
  enabled". `AnyStatus` is the "any" rule. `LastAgreesWithAny` says exactly when the
  two agree. `LastDiffersFromAny` shows the two-node reply `node1 OK monitor_on`,
  `node2 OK`, which the page reports as `Disabled`.
- The code tests for a third piece, not for exactly three pieces. It also counts
  empty pieces, so leading or trailing white space can make a record enabled.
- With zero records the code leaves the status unset rather than `Disabled`.

## Model

| member | source | states |
|---|---|---|
| `PregSplit.IsSpace` | xCAT-UI/monitor/stat_mon.php:57 | `\s` matches the space and the control characters from tab to carriage return, and nothing else |
| `PregSplit.Split` | xCAT-UI/monitor/stat_mon.php:57 | the split always yields at least one piece, even for an empty record |
| `PregSplit.SplitFields` | xCAT-UI/monitor/stat_mon.php:57 | the pieces hold no white space, only the first and last may be empty, and the first piece is empty exactly when the record is empty or starts with white space |
| `PregSplit.SplitSingle` | xCAT-UI/monitor/stat_mon.php:57 | a record splits into a single piece exactly when it holds no white space |
| `PregSplit.SplitLastPiece` | xCAT-UI/monitor/stat_mon.php:57 | the last piece is empty exactly when the record is empty or ends with white space |
| `PregSplit.SplitCount` | xCAT-UI/monitor/stat_mon.php:57 | a record splits into one piece more than it has maximal runs of white space |
| `PregSplit.SplitRun` | xCAT-UI/monitor/stat_mon.php:57 | a run of white space of any length and kind, before text that does not start with white space, contributes exactly one empty piece |
| `PregSplit.SplitAcrossRun` | xCAT-UI/monitor/stat_mon.php:57 | a space-free piece followed by any run of white space becomes the first piece, and the rest is split on its own |
| `PregSplit.SplitJoin` | xCAT-UI/monitor/stat_mon.php:57 | splitting a single-space join of any well-formed list of pieces gives back that list |
| `PregSplit.JoinSplit` | xCAT-UI/monitor/stat_mon.php:57 | joining the pieces of a split gives the record with every white-space run collapsed to one space |
| `PregSplit.SplitCollapse` | xCAT-UI/monitor/stat_mon.php:57 | the split ignores how long each white-space run is and which characters it holds |
| `StatMon.Classify` | xCAT-UI/monitor/stat_mon.php:57-62 | a record is `Enabled` exactly when it holds at least two maximal runs of white space, so that `$nodemonstatus` gets a third piece, and `Disabled` otherwise |
| `StatMon.ClassifyByPieces` | xCAT-UI/monitor/stat_mon.php:57-62 | a record of well-formed pieces joined by single spaces is `Enabled` exactly when there are at least three pieces, and `Disabled` when there are fewer |
| `StatMon.ClassifyCollapse` | xCAT-UI/monitor/stat_mon.php:57-62 | the length and kind of each white-space run never change a record's classification |
| `StatMon.ClassifyThreePieces` | xCAT-UI/monitor/stat_mon.php:57-59 | node, status and flag pieces separated by any two white-space runs give `Enabled`, even when the first or last piece is empty |
| `StatMon.ClassifyTwoPieces` | xCAT-UI/monitor/stat_mon.php:57-61 | two space-free pieces around one white-space run of any length and kind give `Disabled` |
| `StatMon.LeadingWhiteSpaceEnables` | xCAT-UI/monitor/stat_mon.php:57-59 | leading white space of any length and kind shifts the pieces, so an indented two-word record is `Enabled` |
| `StatMon.TrailingWhiteSpaceEnables` | xCAT-UI/monitor/stat_mon.php:57-59 | trailing white space of any length and kind adds an empty third piece, so a two-word record followed by white space is `Enabled` |
| `StatMon.FlaggedNodeEnabled` | xCAT-UI/monitor/stat_mon.php:57-59 | the record `node1 OK monitor_on` is `Enabled` |
| `StatMon.UnflaggedNodeDisabled` | xCAT-UI/monitor/stat_mon.php:57-61 | the record `node2 OK` is `Disabled` |
| `StatMon.Records` | xCAT-UI/monitor/stat_mon.php:56 | the visited records are empty exactly when every response is empty |
| `StatMon.RecordsAppend` | xCAT-UI/monitor/stat_mon.php:56 | the outer loop visits the records response after response |
| `StatMon.LastStatus` | xCAT-UI/monitor/stat_mon.php:56-63 | the value of `$ns` after the loop is unset exactly when there is no record, and is `Enabled` exactly when the last record holds at least two white-space runs |
| `StatMon.NodeStatus` | xCAT-UI/monitor/stat_mon.php:56-63 | the loop leaves `$ns` unset when there is no record and otherwise equal to the classification of the last record visited |
| `StatMon.LastWriteWins` | xCAT-UI/monitor/stat_mon.php:56-63 | once a later record exists, earlier records do not affect the status |
| `StatMon.LastResponseDecides` | xCAT-UI/monitor/stat_mon.php:56-63 | the status is that of the last record of the last non-empty response, whatever the earlier responses hold |
| `StatMon.NoRecordsUnset` | xCAT-UI/monitor/stat_mon.php:56-63 | with zero data records the status is unset (`None`), not `Disabled` |
| `StatMon.LastAgreesWithAny` | xCAT-UI/monitor/stat_mon.php:56-63 | the last-record rule equals the "any record enabled" rule exactly when some record exists and either the last one is enabled or none is |
| `StatMon.LastDiffersFromAny` | xCAT-UI/monitor/stat_mon.php:56-63 | for the records `node1 OK monitor_on`, `node2 OK` the page gives `Disabled` while the "any" rule gives `Enabled` |
| `StatMon.StatMonPage` | xCAT-UI/monitor/stat_mon.php:50-69 | an error reply stops the page with those errors and no status; a data reply gives a table with exactly one row, keyed by the plug-in name, whose node status is the last record's and whose application status is always `Disabled` |
| `NodeStatControl.ActionFor` | xCAT-UI/monitor/stat_mon.php:21-30 | a label of `Enable` requests enabling, `Disable` requests disabling, and any other label requests nothing |
| `NodeStatControl.AfterReply` | xCAT-UI/monitor/stat_mon.php:24-36 | a `successful` reply sets the label opposite to the requested action; any other reply leaves it unchanged |
| `NodeStatControl.Step` | xCAT-UI/monitor/stat_mon.php:18-40 | on `successful`, `Enable` becomes `Disable` and `Disable` becomes `Enable`; the label changes exactly when the reply is `successful` and the label is one of the two words |
| `NodeStatControl.StepsStayTwoState` | xCAT-UI/monitor/stat_mon.php:18-40 | a label holding one of the two words keeps holding one of them over any run of clicks |
| `NodeStatControl.StepsParity` | xCAT-UI/monitor/stat_mon.php:18-40 | over a run of clicks the label flips once per `successful` reply and ignores every other reply |
| `NodeStatControl.StepsIgnoreOtherLabels` | xCAT-UI/monitor/stat_mon.php:21-40 | a label holding any other text never changes |
| `NodeStatControl.Button.Click` | xCAT-UI/monitor/stat_mon.php:21-32 | a request for the clicked plug-in is sent exactly when the label is `Enable` or `Disable`, with the matching action, whose wire value is `enable` or `disable` |
| `NodeStatControl.Button.OnReply` | xCAT-UI/monitor/stat_mon.php:24-36 | the callback sets the label as `AfterReply` says, whatever the label holds when the reply arrives |
| `NodeStatControl.Button.NodeStatControl` | xCAT-UI/monitor/stat_mon.php:18-40 | a click answered at once sends the request `ActionFor` chooses and leaves the label as `Step` says |
| `NodeStatControl.DoubleClickBeforeReply` | xCAT-UI/monitor/stat_mon.php:18-40 | two clicks on `Enable` before either reply both send an enable request for the plug-in, and the label ends `Disable` if either reply is `successful` and `Enable` otherwise |

## Left out

- `docmd` and `getXmlErrors` are calls into the xCAT command subsystem, and their bodies are not part of this model. The reply is an abstract input: either the error list or the text of each data record, grouped by response.
- The XML object model is left out, and so is the conversion of each `$data` element to its text.
- The error output is left out: `implode` of the errors into an HTML paragraph, and the `exit`. `StatMonPage` returns the errors unchanged.
- The PHP notices raised by an undefined `list` offset or an unset `$ns` are left out. The model gives the unset status as `None`.
- The session and security set-up is left out: `$TOPDIR`, the `require_once` includes and reading `$_REQUEST['name']`. The plug-in name is a parameter.
- All presentation is left out: `displayMapper_mon`, `displayTips`, `display_stat_mon_table`, `displayStatus` and `insertButtons`.
- jQuery's `$.get` is left out, along with the network and reading the button from the DOM. A sent request is a returned value, and its reply is a parameter of `OnReply`.
- The server side of `monitor/control_node_stat.php` is not part of this model.
- `PregSplit.IsSpace` follows PCRE 8.34 and later and PCRE2, whose `\s` includes vertical tab. Older PCRE releases leave vertical tab out of `\s`; with them, a vertical tab would be part of a piece, and the model does not cover that behaviour. Locale-dependent character tables and UTF-8 mode are not modelled.
- Each data record is the text of any child element of a response, not only of `<data>` elements. An empty child such as `<serverdone/>` is the record `""`, and the model classifies it like any other record. Which children `monls` actually sends is not part of this model.
