/**
  The server side of the "Node status Monitoring" page (xCAT-UI/monitor/stat_mon.php):
  the reply of the `monls` command for one plug-in is checked for errors, every data
  record of every response is split on white space and classified, and a one-row
  status table keyed by the plug-in name is produced.

  The reply is abstract: the `docmd` call and the XML object model are not part of this
  model, so a reply is either the error list `getXmlErrors` finds or the text of the
  data records, grouped by response.
 */
module StatMon {
  import opened Wrappers
  import opened PregSplit

  datatype Status = Enabled | Disabled

  /** What `docmd("monls", ...)` hands back, as far as the page looks at it. Each inner
      string is the text of one child element of a response, whatever its tag: the
      loop visits every child, so an empty child such as `<serverdone/>` is a record
      `""` like any other. */
  datatype Reply =
    | ErrorList(errors: seq<string>)
    | Data(responses: seq<seq<string>>)

  /** One row of the status table; `nodestat` is None when `$ns` was never assigned. */
  datatype StatRow = StatRow(nodestat: Option<Status>, appstat: Status)

  /** What the page does: stop after printing the errors, or show the status table. */
  datatype Page =
    | Halted(errors: seq<string>)
    | Table(rows: map<string, StatRow>)

  /** Application status monitoring is not supported by the monitoring architecture. */
  const AppStat: Status := Disabled

  /** One record: `list($n, $stat, $nodemonstatus) = preg_split(...)`; the record is
      enabled exactly when a third piece exists for `$nodemonstatus`, that is, when the
      record holds at least two runs of white space. */
  function Classify(record: string): (r: Status)
    ensures r == Enabled <==> Runs(record) >= 2
  {
    SplitCount(record);
    if |Split(record)| >= 3 then Enabled else Disabled
  }

  /** The data records in the order the two nested `foreach` loops visit them. */
  function Records(responses: seq<seq<string>>): (rs: seq<string>)
    ensures rs == [] <==> forall i :: 0 <= i < |responses| ==> responses[i] == []
    decreases |responses|
  {
    if responses == [] then []
    else Records(responses[..|responses| - 1]) + responses[|responses| - 1]
  }

  /** The value of `$ns` after visiting `records`: each record overwrites it. */
  function LastStatus(records: seq<string>): (ns: Option<Status>)
    ensures ns.None? <==> records == []
    ensures ns == Some(Enabled) <==> records != [] && Runs(records[|records| - 1]) >= 2
  {
    if records == [] then None else Some(Classify(records[|records| - 1]))
  }

  /** The aggregation "some record enabled means the plug-in is enabled". */
  function AnyStatus(records: seq<string>): Status {
    if exists i :: 0 <= i < |records| && Classify(records[i]) == Enabled then Enabled else Disabled
  }

  /** The parse loop of the page: `$ns` is overwritten by every record visited. */
  method NodeStatus(responses: seq<seq<string>>) returns (ns: Option<Status>)
    ensures ns == LastStatus(Records(responses))
  {
    ns := None;
    for i := 0 to |responses|
      invariant ns == LastStatus(Records(responses[..i]))
    {
      var response := responses[i];
      for j := 0 to |response|
        invariant ns == LastStatus(Records(responses[..i]) + response[..j])
      {
        ns := Some(Classify(response[j]));
        assert Records(responses[..i]) + response[..j + 1]
            == (Records(responses[..i]) + response[..j]) + [response[j]];
      }
      assert responses[..i + 1][..i] == responses[..i];
      assert response[..|response|] == response;
    }
    assert responses[..|responses|] == responses;
  }

  /** The whole page for plug-in `name` given the reply of `monls`. */
  method StatMonPage(name: string, reply: Reply) returns (page: Page)
    ensures page.Halted? <==> reply.ErrorList?
    ensures reply.ErrorList? ==> page.errors == reply.errors
    ensures page.Table? ==> page.rows.Keys == {name}
    ensures page.Table? ==> page.rows[name].appstat == Disabled
    ensures page.Table? ==> page.rows[name].nodestat == LastStatus(Records(reply.responses))
  {
    if reply.ErrorList? {
      return Halted(reply.errors);
    }
    var ns := NodeStatus(reply.responses);
    page := Table(map[name := StatRow(ns, AppStat)]);
  }

  /** A record whose split has a third piece is enabled, one with fewer is disabled;
      stated for the pieces joined with single spaces. */
  lemma ClassifyByPieces(pieces: seq<string>)
    requires Fields(pieces)
    ensures Classify(JoinFields(pieces)) == (if |pieces| >= 3 then Enabled else Disabled)
  {
    SplitJoin(pieces);
  }

  /** The length and kind of each white-space run never change the classification. */
  lemma {:induction false} ClassifyCollapse(record: string)
    ensures Classify(Collapse(record)) == Classify(record)
  {
    SplitCollapse(record);
  }

  /** A record with three pieces separated by any two runs of white space is enabled,
      whatever the first and last piece hold. */
  lemma {:induction false} ClassifyThreePieces(a: string, w1: string, b: string, w2: string, c: string)
    requires NoSpace(a) && NoSpace(b) && NoSpace(c) && b != ""
    requires IsRun(w1) && IsRun(w2)
    ensures Classify(a + w1 + b + w2 + c) == Enabled
  {
    var rest := b + w2 + c;
    assert a + w1 + b + w2 + c == a + w1 + rest;
    assert rest[0] == b[0];
    SplitAcrossRun(a, w1, rest);
    SplitAcrossRun(b, w2, c);
  }

  /** A record with exactly one run of white space, of any length and kind, has two
      pieces and is disabled. */
  lemma {:induction false} ClassifyTwoPieces(a: string, w: string, b: string)
    requires NoSpace(a) && NoSpace(b) && IsRun(w)
    ensures Classify(a + w + b) == Disabled
  {
    SplitAcrossRun(a, w, b);
    SplitSingle(b);
  }

  /** The `preg_split` subtlety: leading white space gives an empty first piece that
      shifts the others, so a two-word record indented by white space is enabled. */
  lemma {:induction false} LeadingWhiteSpaceEnables(indent: string, node: string, w: string, stat: string)
    requires IsRun(indent) && IsRun(w)
    requires node != "" && NoSpace(node) && NoSpace(stat)
    ensures Classify(indent + node + w + stat) == Enabled
  {
    var record := indent + node + w + stat;
    assert record == "" + indent + node + w + stat;
    ClassifyThreePieces("", indent, node, w, stat);
  }

  /** Trailing white space gives an empty last piece, which still sets `$nodemonstatus`,
      so a two-word record followed by white space is enabled. */
  lemma {:induction false} TrailingWhiteSpaceEnables(node: string, w: string, stat: string, trail: string)
    requires IsRun(w) && IsRun(trail)
    requires stat != "" && NoSpace(node) && NoSpace(stat)
    ensures Classify(node + w + stat + trail) == Enabled
  {
    var record := node + w + stat + trail;
    assert record == node + w + stat + trail + "";
    ClassifyThreePieces(node, w, stat, trail, "");
  }

  /** Last write wins: once a later record exists, nothing earlier affects `$ns`. */
  lemma LastWriteWins(earlier: seq<string>, later: seq<string>)
    requires later != []
    ensures LastStatus(earlier + later) == LastStatus(later)
    ensures LastStatus(earlier + later) == Some(Classify(later[|later| - 1]))
  {
  }

  /** With no data record at all `$ns` is never assigned. */
  lemma NoRecordsUnset(responses: seq<seq<string>>)
    requires forall i :: 0 <= i < |responses| ==> responses[i] == []
    ensures LastStatus(Records(responses)) == None
  {
  }

  /** The records are exactly those of the responses, response after response. */
  lemma {:induction false} RecordsAppend(a: seq<seq<string>>, b: seq<seq<string>>)
    ensures Records(a + b) == Records(a) + Records(b)
    decreases |b|
  {
    if b == [] {
      assert a + b == a;
    } else {
      var b', last := b[..|b| - 1], b[|b| - 1];
      var ab := a + b;
      assert ab[..|ab| - 1] == a + b' && ab[|ab| - 1] == last;
      assert Records(ab) == Records(a + b') + last;
      RecordsAppend(a, b');
      assert Records(b) == Records(b') + last;
      assert Records(a) + Records(b') + last == Records(a) + (Records(b') + last);
    }
  }

  /** The last record decides across responses too: the status comes from the last
      record of the last response that holds one, whatever came before. */
  lemma LastResponseDecides(earlier: seq<seq<string>>, response: seq<string>, empties: seq<seq<string>>)
    requires response != []
    requires forall i :: 0 <= i < |empties| ==> empties[i] == []
    ensures LastStatus(Records(earlier + [response] + empties)) == Some(Classify(response[|response| - 1]))
  {
    RecordsAppend(earlier + [response], empties);
    RecordsAppend(earlier, [response]);
    assert Records([response]) == Records([]) + response;
  }

  /** The page's rule agrees with "any record enabled" exactly when some record exists
      and either the last one is enabled or none is. */
  lemma LastAgreesWithAny(records: seq<string>)
    ensures LastStatus(records) == Some(AnyStatus(records))
        <==> records != [] && (Classify(records[|records| - 1]) == Enabled
                               || forall i :: 0 <= i < |records| ==> Classify(records[i]) == Disabled)
  {
    if records != [] && Classify(records[|records| - 1]) == Enabled {
      assert AnyStatus(records) == Enabled;
    }
  }

  lemma {:induction false} FlaggedNodeEnabled()
    ensures Classify("node1 OK monitor_on") == Enabled
  {
    var record := "node1 OK monitor_on";
    assert record == "node1" + " " + "OK" + " " + "monitor_on";
    ClassifyThreePieces("node1", " ", "OK", " ", "monitor_on");
  }

  lemma {:induction false} UnflaggedNodeDisabled()
    ensures Classify("node2 OK") == Disabled
  {
    var record := "node2 OK";
    assert record == "node2" + " " + "OK";
    ClassifyTwoPieces("node2", " ", "OK");
  }

  /** Two nodes, the first with a monitor flag: "any" says Enabled, the page says Disabled. */
  lemma {:induction false} LastDiffersFromAny()
    ensures LastStatus(["node1 OK monitor_on", "node2 OK"]) == Some(Disabled)
    ensures AnyStatus(["node1 OK monitor_on", "node2 OK"]) == Enabled
  {
    FlaggedNodeEnabled();
    UnflaggedNodeDisabled();
    var records := ["node1 OK monitor_on", "node2 OK"];
    assert Classify(records[0]) == Enabled;
  }
}
