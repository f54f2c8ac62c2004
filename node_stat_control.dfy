/**
  The browser side of the page: `node_stat_control(plugin)` reads the label of the
  node-status button, sends an enable or disable request for the plug-in when the
  label is "Enable" or "Disable", and its reply callback switches the label to the
  opposite word when the server answers exactly "successful".

  The request itself (jQuery's `$.get`) is not modelled: a click yields the request
  it would send, and the reply is delivered later by a separate call, so replies may
  arrive after other clicks. The label is the `text` field of a `Button`.
 */
module NodeStatControl {
  import opened Wrappers

  const EnableLabel := "Enable"
  const DisableLabel := "Disable"
  const Successful := "successful"

  datatype Action = EnableAction | DisableAction

  /** The query string `{name: plugin, action: ...}` sent to control_node_stat.php. */
  datatype Request = Request(name: string, action: Action)

  /** The value of the `action` parameter on the wire. */
  function ActionParam(a: Action): string {
    match a
    case EnableAction => "enable"
    case DisableAction => "disable"
  }

  /** The action a click on a button with this label requests, if any. */
  function ActionFor(text: string): (a: Option<Action>)
    ensures a == Some(EnableAction) <==> text == EnableLabel
    ensures a == Some(DisableAction) <==> text == DisableLabel
    ensures a == None <==> text != EnableLabel && text != DisableLabel
  {
    if text == EnableLabel then Some(EnableAction)
    else if text == DisableLabel then Some(DisableAction)
    else None
  }

  /** The label the reply callback of a request for `a` writes on success. */
  function TargetLabel(a: Action): string {
    match a
    case EnableAction => DisableLabel
    case DisableAction => EnableLabel
  }

  /** The label after the callback for action `a` has seen `reply`. */
  function AfterReply(text: string, a: Action, reply: string): (l: string)
    ensures reply == Successful ==> ActionFor(l) == Some(if a == EnableAction then DisableAction else EnableAction)
    ensures reply != Successful ==> l == text
  {
    if reply == Successful then TargetLabel(a) else text
  }

  /** One click answered at once: the pure label transition of `node_stat_control`. */
  function Step(text: string, reply: string): (l: string)
    ensures text == EnableLabel && reply == Successful ==> l == DisableLabel
    ensures text == DisableLabel && reply == Successful ==> l == EnableLabel
    ensures l != text <==> reply == Successful && (text == EnableLabel || text == DisableLabel)
  {
    match ActionFor(text)
    case None => text
    case Some(a) => AfterReply(text, a, reply)
  }

  /** The opposite word of a two-state label. */
  function Opposite(text: string): string {
    if text == EnableLabel then DisableLabel else EnableLabel
  }

  /** The label after a run of clicks, each answered before the next. */
  function Steps(text: string, replies: seq<string>): string
    decreases |replies|
  {
    if replies == [] then text else Steps(Step(text, replies[0]), replies[1..])
  }

  /** How many of the replies are exactly "successful". */
  function Successes(replies: seq<string>): nat
    decreases |replies|
  {
    if replies == [] then 0 else (if replies[0] == Successful then 1 else 0) + Successes(replies[1..])
  }

  /** The label only ever holds one of the two words once it holds one. */
  lemma {:induction false} StepsStayTwoState(text: string, replies: seq<string>)
    requires text == EnableLabel || text == DisableLabel
    ensures Steps(text, replies) == EnableLabel || Steps(text, replies) == DisableLabel
    decreases |replies|
  {
    if replies != [] {
      StepsStayTwoState(Step(text, replies[0]), replies[1..]);
    }
  }

  /** Starting from either word, the label flips once per successful reply and
      ignores every other reply. */
  lemma {:induction false} StepsParity(text: string, replies: seq<string>)
    requires text == EnableLabel || text == DisableLabel
    ensures Steps(text, replies) == if Successes(replies) % 2 == 0 then text else Opposite(text)
    decreases |replies|
  {
    if replies != [] {
      var next := Step(text, replies[0]);
      StepsParity(next, replies[1..]);
      assert next == if replies[0] == Successful then Opposite(text) else text;
    }
  }

  /** A label holding any other text is never changed, whatever the replies. */
  lemma {:induction false} StepsIgnoreOtherLabels(text: string, replies: seq<string>)
    requires text != EnableLabel && text != DisableLabel
    ensures Steps(text, replies) == text
    decreases |replies|
  {
    if replies != [] {
      StepsIgnoreOtherLabels(Step(text, replies[0]), replies[1..]);
    }
  }

  /** The node-status button of the page; its label is the only state the handler touches. */
  class Button {
    var text: string

    constructor (initial: string)
      ensures text == initial
    {
      text := initial;
    }

    /** The synchronous part of `node_stat_control(plugin)`: read the label and
        decide which request to send; the label is not changed yet. */
    method Click(plugin: string) returns (request: Option<Request>)
      ensures request.Some? <==> text == EnableLabel || text == DisableLabel
      ensures request.Some? ==> request.value.name == plugin
      ensures text == EnableLabel ==> request == Some(Request(plugin, EnableAction))
      ensures text == DisableLabel ==> request == Some(Request(plugin, DisableAction))
      ensures request.Some? ==> ActionParam(request.value.action) == if text == EnableLabel then "enable" else "disable"
    {
      var action := text;
      if action == EnableLabel {
        request := Some(Request(plugin, EnableAction));
      } else if action == DisableLabel {
        request := Some(Request(plugin, DisableAction));
      } else {
        request := None;
      }
    }

    /** The reply callback of a sent request: on "successful" it writes the label
        opposite to the requested action, whatever the label holds by then. */
    method OnReply(request: Request, reply: string)
      modifies this
      ensures text == AfterReply(old(text), request.action, reply)
    {
      if reply == Successful {
        match request.action
        case EnableAction => text := DisableLabel;
        case DisableAction => text := EnableLabel;
      }
    }

    /** A click whose reply arrives before anything else happens. */
    method NodeStatControl(plugin: string, reply: string) returns (request: Option<Request>)
      modifies this
      ensures request.Some? <==> old(text) == EnableLabel || old(text) == DisableLabel
      ensures request.Some? ==> request.value == Request(plugin, ActionFor(old(text)).value)
      ensures text == Step(old(text), reply)
    {
      request := Click(plugin);
      if request.Some? {
        OnReply(request.value, reply);
      }
    }
  }

  /** Two clicks on "Enable" before either reply: both send an enable request, and the
      label ends as "Disable" if either reply is "successful", otherwise stays "Enable". */
  method DoubleClickBeforeReply(plugin: string, reply1: string, reply2: string)
    returns (b: Button, r1: Option<Request>, r2: Option<Request>)
    ensures r1 == r2 == Some(Request(plugin, EnableAction))
    ensures b.text == if reply1 == Successful || reply2 == Successful then DisableLabel else EnableLabel
  {
    b := new Button(EnableLabel);
    r1 := b.Click(plugin);
    r2 := b.Click(plugin);
    b.OnReply(r1.value, reply1);
    b.OnReply(r2.value, reply2);
  }
}
