/** The head-node side of MegaMol's Remote_Service frontend service: role
    selection from the runtime configuration, the remote-control command
    queue, and the messages the head node sends when it drains that queue.
    The ZMQ server, MPI, the Lua interpreter and the graph serialiser are
    outside the model: their results are parameters, and the messages the
    head node sends are recorded in order. */
module RemoteControl {

  // ---------------------------------------------------------------------
  // Role selection

  datatype Role = NoRole | HeadNode | RenderNode | MPIRenderNode

  /** The remote-session part of the frontend's RuntimeConfig. */
  datatype RuntimeConfig = RuntimeConfig(
    remoteHeadnode: bool,
    remoteRendernode: bool,
    remoteMpirendernode: bool,
    remoteMpiBroadcastRank: nat,
    remoteHeadnodeZmqTargetAddress: string,
    remoteRendernodeZmqSourceAddress: string,
    remoteHeadnodeBroadcastQuit: bool,
    remoteHeadnodeBroadcastInitialProject: bool,
    remoteHeadnodeConnectOnStart: bool)

  /** Remote_Service::Config. */
  datatype Config = Config(
    role: Role,
    mpiBroadcastRank: nat,
    headnodeZmqTargetAddress: string,
    rendernodeZmqSourceAddress: string,
    headnodeBroadcastQuit: bool,
    headnodeBroadcastInitialProject: bool,
    headnodeConnectOnStart: bool)

  /** What handle_remote_session_config ends in: a role name for the log and
      the filled-in configuration, or the process exiting with a status. */
  datatype SessionOutcome = Configured(roleName: string, remote: Config) | Exit(status: int)

  /** Whether the runtime configuration asks for role r. */
  predicate Requested(config: RuntimeConfig, r: Role) {
    match r
    case NoRole => false
    case HeadNode => config.remoteHeadnode
    case RenderNode => config.remoteRendernode
    case MPIRenderNode => config.remoteMpirendernode
  }

  /** Which requested role wins when several are set. */
  function Precedence(r: Role): nat {
    match r
    case NoRole => 0
    case HeadNode => 1
    case RenderNode => 2
    case MPIRenderNode => 3
  }

  /** Whether the runtime configuration asks for any role at all. */
  predicate AnyRequested(config: RuntimeConfig) {
    config.remoteHeadnode || config.remoteRendernode || config.remoteMpirendernode
  }

  /** Requested roles have distinct precedences, so the role of highest
      precedence among the requested ones is unique. */
  lemma {:induction false} HighestRequestedUnique(config: RuntimeConfig, r1: Role, r2: Role)
    requires Requested(config, r1) && Requested(config, r2)
    requires forall q :: Requested(config, q) ==> Precedence(q) <= Precedence(r1)
    requires forall q :: Requested(config, q) ==> Precedence(q) <= Precedence(r2)
    ensures r1 == r2
  {
    assert Precedence(r1) == Precedence(r2);
  }

  function RoleName(r: Role): string {
    match r
    case NoRole => ""
    case HeadNode => " (Head Node)"
    case RenderNode => " (Render Node)"
    case MPIRenderNode => " (MPI Render Node)"
  }

  /** handle_remote_session_config: the role flags are checked one after the
      other, so the last requested one wins; asking for an MPI render node in
      a build without MPI exits with status 1. The other settings are copied. */
  method HandleRemoteSessionConfig(config: RuntimeConfig, remote: Config, mpiBuilt: bool)
    returns (outcome: SessionOutcome)
    ensures outcome.Exit? <==> config.remoteMpirendernode && !mpiBuilt
    ensures outcome.Exit? ==> outcome.status == 1
    ensures outcome.Configured? && AnyRequested(config) ==>
      var r := outcome.remote.role;
      && Requested(config, r)
      && (forall q :: Requested(config, q) ==> Precedence(q) <= Precedence(r))
      && outcome.roleName == RoleName(r)
    ensures outcome.Configured? && !AnyRequested(config) ==>
      outcome.remote.role == remote.role && outcome.roleName == ""
    ensures outcome.Configured? ==>
      outcome.remote == Config(outcome.remote.role, config.remoteMpiBroadcastRank,
        config.remoteHeadnodeZmqTargetAddress, config.remoteRendernodeZmqSourceAddress,
        config.remoteHeadnodeBroadcastQuit, config.remoteHeadnodeBroadcastInitialProject,
        config.remoteHeadnodeConnectOnStart)
  {
    var role := remote.role;
    var roleName := "";
    if config.remoteHeadnode {
      role := HeadNode;
      roleName := RoleName(HeadNode);
    }
    if config.remoteRendernode {
      role := RenderNode;
      roleName := RoleName(RenderNode);
    }
    if config.remoteMpirendernode {
      if !mpiBuilt {
        return Exit(1);
      }
      role := MPIRenderNode;
      roleName := RoleName(MPIRenderNode);
    }
    outcome := Configured(roleName, Config(role, config.remoteMpiBroadcastRank,
      config.remoteHeadnodeZmqTargetAddress, config.remoteRendernodeZmqSourceAddress,
      config.remoteHeadnodeBroadcastQuit, config.remoteHeadnodeBroadcastInitialProject,
      config.remoteHeadnodeConnectOnStart));
  }

  // ---------------------------------------------------------------------
  // Remote-control commands

  /** HeadNodeRemoteControl::Command; Count is the last enumerator. */
  datatype Command =
    | StartHeadNode | CloseHeadNode | ClearGraph | SendGraph
    | KeepSendingParams | DontSendParams | SetParamSendingModules | SendLuaCommand
    | Count

  /** The number of a command. */
  function Code(c: Command): nat {
    match c
    case StartHeadNode => 0
    case CloseHeadNode => 1
    case ClearGraph => 2
    case SendGraph => 3
    case KeepSendingParams => 4
    case DontSendParams => 5
    case SetParamSendingModules => 6
    case SendLuaCommand => 7
    case Count => 8
  }

  /** The command with number n; the range check lets every number up to and
      including Count through. */
  function CommandOf(n: nat): (c: Command)
    requires n <= Code(Count)
    ensures Code(c) == n
  {
    if n == 0 then StartHeadNode
    else if n == 1 then CloseHeadNode
    else if n == 2 then ClearGraph
    else if n == 3 then SendGraph
    else if n == 4 then KeepSendingParams
    else if n == 5 then DontSendParams
    else if n == 6 then SetParamSendingModules
    else if n == 7 then SendLuaCommand
    else Count
  }

  lemma {:induction false} CommandCodeRoundTrip(c: Command)
    ensures Code(c) <= Code(Count) && CommandOf(Code(c)) == c
  {
  }

  const CLEAR_GRAPH_MESSAGE: string := "mmClearGraph()"
  const QUIT_MESSAGE: string := "mmQuit()"

  /** The messages the head node sends for the queued commands, in queue
      order: ClearGraph, SendGraph and SendLuaCommand send one message each,
      the other commands none. */
  function QueueMessages(queue: seq<Command>, luaCommand: string, graph: string): seq<string> {
    if queue == [] then []
    else
      QueueMessages(queue[..|queue| - 1], luaCommand, graph)
        + match queue[|queue| - 1]
          case ClearGraph => [CLEAR_GRAPH_MESSAGE]
          case SendGraph => [graph]
          case SendLuaCommand => [luaCommand]
          case _ => []
  }

  // ---------------------------------------------------------------------
  // split_module_names

  predicate IsDelimiter(c: char) {
    c == ',' || c == ' '
  }

  /** find_first_not_of(", ", i), with npos as |s|. */
  function SkipDelimiters(s: string, i: nat): (r: nat)
    requires i <= |s|
    ensures i <= r <= |s|
    ensures forall k :: i <= k < r ==> IsDelimiter(s[k])
    ensures r < |s| ==> !IsDelimiter(s[r])
    decreases |s| - i
  {
    if i == |s| || !IsDelimiter(s[i]) then i else SkipDelimiters(s, i + 1)
  }

  /** find_first_of(", ", i), with npos as |s|. */
  function NextDelimiter(s: string, i: nat): (r: nat)
    requires i <= |s|
    ensures i <= r <= |s|
    ensures forall k :: i <= k < r ==> !IsDelimiter(s[k])
    ensures r < |s| ==> IsDelimiter(s[r])
    decreases |s| - i
  {
    if i == |s| || IsDelimiter(s[i]) then i else NextDelimiter(s, i + 1)
  }

  /** The module names in s[i..]: the maximal runs of characters other than
      ',' and ' '. */
  function TokensFrom(s: string, i: nat): seq<string>
    requires i <= |s|
    decreases |s| - i
  {
    var b := SkipDelimiters(s, i);
    if b == |s| then [] else [s[b..NextDelimiter(s, b)]] + TokensFrom(s, NextDelimiter(s, b))
  }

  /** s without its delimiters. */
  function StripDelimiters(s: string): string {
    if s == [] then []
    else StripDelimiters(s[..|s| - 1]) + (if IsDelimiter(s[|s| - 1]) then [] else [s[|s| - 1]])
  }

  function Concat(ts: seq<string>): string {
    if ts == [] then [] else ts[0] + Concat(ts[1..])
  }

  /** Skipping delimiters from a position with none to skip stays there. */
  lemma {:induction false} TokensFromSkip(s: string, i: nat)
    requires i <= |s|
    ensures TokensFrom(s, i) == TokensFrom(s, SkipDelimiters(s, i))
  {
    var b := SkipDelimiters(s, i);
    assert SkipDelimiters(s, b) == b;
  }

  /** Every module name is non-empty and holds no delimiter. */
  lemma {:induction false} TokensAreNames(s: string, i: nat)
    requires i <= |s|
    ensures forall t :: t in TokensFrom(s, i) ==> |t| > 0 && forall c :: c in t ==> !IsDelimiter(c)
    decreases |s| - i
  {
    var b := SkipDelimiters(s, i);
    if b < |s| {
      var e := NextDelimiter(s, b);
      TokensAreNames(s, e);
      var t := s[b..e];
      forall c | c in t ensures !IsDelimiter(c) {
        var k :| 0 <= k < |t| && t[k] == c;
        assert s[b + k] == c;
      }
    }
  }

  /** Deleting the delimiters of a string that is all delimiters leaves nothing;
      of one that has none leaves it whole; and it distributes over +. */
  lemma {:induction false} StripAppend(a: string, b: string)
    ensures StripDelimiters(a + b) == StripDelimiters(a) + StripDelimiters(b)
    decreases |b|
  {
    if b == [] {
      assert a + b == a;
    } else {
      var b', c := b[..|b| - 1], b[|b| - 1];
      var tail := if IsDelimiter(c) then [] else [c];
      assert (a + b)[..|a + b| - 1] == a + b' && (a + b)[|a + b| - 1] == c;
      assert StripDelimiters(a + b) == StripDelimiters(a + b') + tail;
      assert StripDelimiters(b) == StripDelimiters(b') + tail;
      StripAppend(a, b');
    }
  }

  lemma {:induction false} StripAllDelimiters(s: string)
    requires forall k :: 0 <= k < |s| ==> IsDelimiter(s[k])
    ensures StripDelimiters(s) == []
  {
    if s != [] {
      StripAllDelimiters(s[..|s| - 1]);
    }
  }

  lemma {:induction false} StripNoDelimiters(s: string)
    requires forall k :: 0 <= k < |s| ==> !IsDelimiter(s[k])
    ensures StripDelimiters(s) == s
  {
    if s != [] {
      StripNoDelimiters(s[..|s| - 1]);
    }
  }

  /** A leading run of delimiters contributes nothing once they are deleted. */
  lemma {:induction false} StripLeadingDelimiters(s: string, i: nat, b: nat)
    requires i <= b <= |s|
    requires forall k :: i <= k < b ==> IsDelimiter(s[k])
    ensures StripDelimiters(s[i..]) == StripDelimiters(s[b..])
  {
    StripAllDelimiters(s[i..b]);
    assert s[i..] == s[i..b] + s[b..];
    StripAppend(s[i..b], s[b..]);
  }

  /** A leading run without delimiters is kept whole. */
  lemma {:induction false} StripLeadingName(s: string, b: nat, e: nat)
    requires b <= e <= |s|
    requires forall k :: b <= k < e ==> !IsDelimiter(s[k])
    ensures StripDelimiters(s[b..]) == s[b..e] + StripDelimiters(s[e..])
  {
    StripNoDelimiters(s[b..e]);
    assert s[b..] == s[b..e] + s[e..];
    StripAppend(s[b..e], s[e..]);
  }

  /** The module names, joined, are the input without its delimiters: no
      character is lost and the order is kept. */
  lemma {:induction false} TokensKeepText(s: string, i: nat)
    requires i <= |s|
    ensures Concat(TokensFrom(s, i)) == StripDelimiters(s[i..])
    decreases |s| - i
  {
    var b := SkipDelimiters(s, i);
    StripLeadingDelimiters(s, i, b);
    if b < |s| {
      var e := NextDelimiter(s, b);
      TokensKeepText(s, e);
      StripLeadingName(s, b, e);
      var ts := TokensFrom(s, e);
      assert TokensFrom(s, i) == [s[b..e]] + ts;
      assert ([s[b..e]] + ts)[1..] == ts;
    }
  }

  /** There are no module names exactly when the input is all delimiters
      (in particular when it is empty). */
  lemma {:induction false} NoTokensIffAllDelimiters(s: string)
    ensures TokensFrom(s, 0) == [] <==> forall k :: 0 <= k < |s| ==> IsDelimiter(s[k])
  {
  }

  /** split_module_names: the find_first_not_of/find_first_of loop. */
  method SplitModuleNames(s: string) returns (moduleList: seq<string>)
    ensures moduleList == TokensFrom(s, 0)
  {
    moduleList := [];
    if |s| == 0 {
      return;
    }
    var begin := SkipDelimiters(s, 0);
    var end := NextDelimiter(s, begin);
    while begin < |s|
      invariant begin <= |s| && SkipDelimiters(s, begin) == begin
      invariant end == NextDelimiter(s, begin)
      invariant moduleList + TokensFrom(s, begin) == TokensFrom(s, 0)
      decreases |s| - begin
    {
      moduleList := moduleList + [s[begin..end]];
      TokensFromSkip(s, end);
      begin := SkipDelimiters(s, end);
      end := NextDelimiter(s, begin);
    }
  }

  /** The parameter message: all parameters when the module list is "all",
      otherwise the parameters of each named module, concatenated. */
  function ParamsMessage(modules: string, allParams: string, moduleParams: string -> string): string {
    if modules == "all" then allParams else ConcatParams(TokensFrom(modules, 0), moduleParams)
  }

  /** The parameter part of do_headnode_things: the serialisation of all
      parameters for "all", otherwise the module list is split and the
      parameters of each listed module are appended in list order. */
  method ParamsToSend(modules: string, allParams: string, moduleParams: string -> string) returns (sendParams: string)
    ensures sendParams == ParamsMessage(modules, allParams, moduleParams)
  {
    sendParams := "";
    if modules == "all" {
      sendParams := allParams;
    } else {
      var moduleList := SplitModuleNames(modules);
      var j := 0;
      while j < |moduleList|
        invariant 0 <= j <= |moduleList|
        invariant sendParams == ConcatParams(moduleList[..j], moduleParams)
      {
        assert moduleList[..j + 1][..j] == moduleList[..j];
        sendParams := sendParams + moduleParams(moduleList[j]);
        j := j + 1;
      }
      assert moduleList[..j] == moduleList;
    }
  }

  function ConcatParams(names: seq<string>, moduleParams: string -> string): string {
    if names == [] then []
    else ConcatParams(names[..|names| - 1], moduleParams) + moduleParams(names[|names| - 1])
  }

  // ---------------------------------------------------------------------
  // The service object

  /** m_do_remote_things: what the service does on every frame. */
  datatype RemoteThings = Nothing | HeadNodeThings | RenderNodeThings | MpiThings

  class RemoteService {
    var config: Config
    /** HeadNodeRemoteControl's state. */
    var commandsQueue: seq<Command>
    var keepSendingParams: bool
    var modulesToSendParamsOf: string
    var luaCommand: string
    var isHeadnodeRunning: bool
    var doRemoteThings: RemoteThings
    /** Every message the head node has sent, in order. */
    var sent: seq<string>
    /** Every message handed to the Lua interpreter, in order. */
    var executed: seq<string>

    constructor (config: Config)
      ensures this.config == config && commandsQueue == []
      ensures !keepSendingParams && modulesToSendParamsOf == "all" && luaCommand == ""
      ensures !isHeadnodeRunning && doRemoteThings == Nothing && sent == [] && executed == []
    {
      this.config := config;
      commandsQueue := [];
      keepSendingParams := false;
      modulesToSendParamsOf := "all";
      luaCommand := "";
      isHeadnodeRunning := false;
      doRemoteThings := Nothing;
      sent := [];
      executed := [];
    }

    /** head_send_message. */
    method HeadSendMessage(message: string)
      modifies this`sent
      ensures sent == old(sent) + [message]
    {
      sent := sent + [message];
    }

    /** start_headnode: starting switches the frame work to the head node and
        fails if the server does not start; shutting down broadcasts
        "mmQuit()" only when configured to, and always succeeds. */
    method StartHeadnode(startOrShutdown: bool, serverStarts: bool) returns (ok: bool)
      modifies this`doRemoteThings, this`isHeadnodeRunning, this`sent
      ensures startOrShutdown ==> doRemoteThings == HeadNodeThings && sent == old(sent)
      ensures startOrShutdown ==> ok == serverStarts
      ensures startOrShutdown ==> isHeadnodeRunning == (serverStarts || old(isHeadnodeRunning))
      ensures !startOrShutdown ==> ok && !isHeadnodeRunning && doRemoteThings == old(doRemoteThings)
      ensures !startOrShutdown ==> sent == old(sent) + (if config.headnodeBroadcastQuit then [QUIT_MESSAGE] else [])
    {
      if startOrShutdown {
        doRemoteThings := HeadNodeThings;
        if !serverStarts {
          return false;
        }
        isHeadnodeRunning := true;
      } else {
        if config.headnodeBroadcastQuit {
          HeadSendMessage(QUIT_MESSAGE);
        }
        isHeadnodeRunning := false;
      }
      return true;
    }

    /** add_headnode_remote_command: rejects a number above Count; otherwise
        applies the command's immediate effect and queues it. */
    method AddHeadnodeRemoteCommand(command: nat, value: string, serverStarts: bool)
      modifies this`commandsQueue, this`keepSendingParams, this`modulesToSendParamsOf, this`luaCommand,
        this`isHeadnodeRunning, this`doRemoteThings, this`sent
      ensures command > Code(Count) ==>
        && commandsQueue == old(commandsQueue) && keepSendingParams == old(keepSendingParams)
        && modulesToSendParamsOf == old(modulesToSendParamsOf) && luaCommand == old(luaCommand)
        && isHeadnodeRunning == old(isHeadnodeRunning) && doRemoteThings == old(doRemoteThings)
        && sent == old(sent)
      ensures command <= Code(Count) ==>
        var cmd := CommandOf(command);
        && commandsQueue == old(commandsQueue) + [cmd]
        && keepSendingParams == (if cmd == KeepSendingParams then true
                                 else if cmd == DontSendParams then false
                                 else old(keepSendingParams))
        && modulesToSendParamsOf == (if cmd == SetParamSendingModules then value else old(modulesToSendParamsOf))
        && luaCommand == (if cmd == SendLuaCommand then value else old(luaCommand))
        && isHeadnodeRunning == (if cmd == StartHeadNode then serverStarts || old(isHeadnodeRunning)
                                 else if cmd == CloseHeadNode then false
                                 else old(isHeadnodeRunning))
        && doRemoteThings == (if cmd == StartHeadNode then HeadNodeThings else old(doRemoteThings))
        && sent == old(sent) + (if cmd == CloseHeadNode && config.headnodeBroadcastQuit then [QUIT_MESSAGE] else [])
    {
      if command > Code(Count) {
        return;
      }
      var cmd := CommandOf(command);
      match cmd {
        case StartHeadNode =>
          var _ := StartHeadnode(true, serverStarts);
        case CloseHeadNode =>
          var _ := StartHeadnode(false, serverStarts);
        case KeepSendingParams =>
          keepSendingParams := true;
        case DontSendParams =>
          keepSendingParams := false;
        case SetParamSendingModules =>
          modulesToSendParamsOf := value;
        case SendLuaCommand =>
          luaCommand := value;
        case _ =>
      }
      commandsQueue := commandsQueue + [cmd];
    }

    /** The queue loop of do_headnode_things: one message per queued
        ClearGraph, SendGraph or SendLuaCommand, in queue order. */
    method SendQueued(graph: string)
      modifies this`sent
      ensures sent == old(sent) + QueueMessages(commandsQueue, luaCommand, graph)
    {
      var i := 0;
      while i < |commandsQueue|
        invariant 0 <= i <= |commandsQueue|
        invariant sent == old(sent) + QueueMessages(commandsQueue[..i], luaCommand, graph)
      {
        assert commandsQueue[..i + 1][..i] == commandsQueue[..i];
        match commandsQueue[i] {
          case ClearGraph => HeadSendMessage(CLEAR_GRAPH_MESSAGE);
          case SendGraph => HeadSendMessage(graph);
          case SendLuaCommand => HeadSendMessage(luaCommand);
          case _ =>
        }
        i := i + 1;
      }
      assert commandsQueue[..i] == commandsQueue;
    }

    /** do_headnode_things: sends one message per queued ClearGraph, SendGraph
        or SendLuaCommand, in queue order, empties the queue, and then, when
        parameters are kept in sync, sends the parameter message. `graph`,
        `allParams` and `moduleParams` are the serialisations the graph
        produces. */
    method DoHeadnodeThings(graph: string, allParams: string, moduleParams: string -> string)
      modifies this`commandsQueue, this`sent
      ensures commandsQueue == []
      ensures sent == old(sent) + QueueMessages(old(commandsQueue), luaCommand, graph)
        + (if keepSendingParams then [ParamsMessage(modulesToSendParamsOf, allParams, moduleParams)] else [])
    {
      SendQueued(graph);
      commandsQueue := [];
      if keepSendingParams {
        var sendParams := ParamsToSend(modulesToSendParamsOf, allParams, moduleParams);
        HeadSendMessage(sendParams);
      }
    }

    /** execute_message: an empty message is ignored; any other is handed to
        the Lua interpreter. */
    method ExecuteMessage(message: string)
      modifies this`executed
      ensures |message| == 0 ==> executed == old(executed)
      ensures |message| > 0 ==> executed == old(executed) + [message]
    {
      if |message| == 0 {
        return;
      }
      executed := executed + [message];
    }
  }

  /** Queueing ClearGraph then SendLuaCommand yields "mmClearGraph()" then
      the Lua command. */
  lemma {:induction false} ClearThenLua(luaCommand: string, graph: string)
    ensures QueueMessages([ClearGraph, SendLuaCommand], luaCommand, graph) == [CLEAR_GRAPH_MESSAGE, luaCommand]
  {
    assert [ClearGraph][..0] == [];
    assert QueueMessages([ClearGraph], luaCommand, graph) == [CLEAR_GRAPH_MESSAGE];
    assert [ClearGraph, SendLuaCommand][..1] == [ClearGraph];
  }

  /** Queued commands are sent in order and the queue is left empty: queueing
      ClearGraph then SendLuaCommand sends "mmClearGraph()" and then the Lua
      command, and an out-of-range number changes nothing. */
  method QueueScenario(config: Config, graph: string, allParams: string, moduleParams: string -> string)
    returns (sent: seq<string>, queue: seq<Command>)
    ensures sent == [CLEAR_GRAPH_MESSAGE, "mmRenderNextFrame()"] && queue == []
  {
    var rs := new RemoteService(config);
    CommandCodeRoundTrip(ClearGraph);
    rs.AddHeadnodeRemoteCommand(Code(ClearGraph), "", true);
    assert rs.commandsQueue == [ClearGraph] && !rs.keepSendingParams && rs.sent == [];
    CommandCodeRoundTrip(SendLuaCommand);
    rs.AddHeadnodeRemoteCommand(Code(SendLuaCommand), "mmRenderNextFrame()", true);
    assert rs.commandsQueue == [ClearGraph, SendLuaCommand] && !rs.keepSendingParams && rs.sent == [];
    assert rs.luaCommand == "mmRenderNextFrame()";
    rs.AddHeadnodeRemoteCommand(Code(Count) + 1, "ignored", true);
    assert rs.commandsQueue == [ClearGraph, SendLuaCommand] && !rs.keepSendingParams && rs.sent == [];
    ClearThenLua(rs.luaCommand, graph);
    rs.DoHeadnodeThings(graph, allParams, moduleParams);
    sent, queue := rs.sent, rs.commandsQueue;
  }
}
