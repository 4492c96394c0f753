/** The b-CAP function ids that create and release objects (bcap_funcid.h, bcap_mapid.h). */
module FunctionIds {

  const SERVICE_START := 1
  const SERVICE_STOP := 2
  const CONTROLLER_CONNECT := 3
  const CONTROLLER_DISCONNECT := 4
  const CONTROLLER_GETEXTENSION := 5
  const CONTROLLER_GETFILE := 6
  const CONTROLLER_GETROBOT := 7
  const CONTROLLER_GETTASK := 8
  const CONTROLLER_GETVARIABLE := 9
  const CONTROLLER_GETCOMMAND := 10
  const CONTROLLER_GETMESSAGE := 18
  const EXTENSION_GETVARIABLE := 26
  const EXTENSION_RELEASE := 36
  const FILE_GETFILE := 37
  const FILE_GETVARIABLE := 38
  const FILE_RELEASE := 61
  const ROBOT_GETVARIABLE := 62
  const ROBOT_RELEASE := 84
  const TASK_GETVARIABLE := 85
  const TASK_RELEASE := 99
  const VARIABLE_RELEASE := 111
  const COMMAND_RELEASE := 127
  const MESSAGE_RELEASE := 137
  const ID_MAX := 138

  /** relation_id of the server's table: the release function of what is created, -1 for a release, else 0. */
  function RelationId(id: int): int
  {
    if id == SERVICE_START then SERVICE_STOP
    else if id == CONTROLLER_CONNECT then CONTROLLER_DISCONNECT
    else if id == CONTROLLER_GETEXTENSION then EXTENSION_RELEASE
    else if id == CONTROLLER_GETFILE || id == FILE_GETFILE then FILE_RELEASE
    else if id == CONTROLLER_GETROBOT then ROBOT_RELEASE
    else if id == CONTROLLER_GETTASK then TASK_RELEASE
    else if id == CONTROLLER_GETVARIABLE || id == EXTENSION_GETVARIABLE || id == FILE_GETVARIABLE
            || id == ROBOT_GETVARIABLE || id == TASK_GETVARIABLE then VARIABLE_RELEASE
    else if id == CONTROLLER_GETCOMMAND then COMMAND_RELEASE
    else if id == CONTROLLER_GETMESSAGE then MESSAGE_RELEASE
    else if id == SERVICE_STOP || id == CONTROLLER_DISCONNECT || id == EXTENSION_RELEASE || id == FILE_RELEASE
            || id == ROBOT_RELEASE || id == TASK_RELEASE || id == VARIABLE_RELEASE || id == COMMAND_RELEASE
            || id == MESSAGE_RELEASE then -1
    else 0
  }

  /** The requests receive_execute refuses while the stack is full. */
  predicate Gated(id: int)
  {
    id in {SERVICE_START, CONTROLLER_CONNECT, CONTROLLER_GETEXTENSION, CONTROLLER_GETFILE, FILE_GETFILE,
           CONTROLLER_GETROBOT, CONTROLLER_GETTASK, CONTROLLER_GETVARIABLE, EXTENSION_GETVARIABLE,
           FILE_GETVARIABLE, ROBOT_GETVARIABLE, TASK_GETVARIABLE, CONTROLLER_GETCOMMAND, CONTROLLER_GETMESSAGE}
  }

  /** tmpKH.first of ExecFunction: the release function the client remembers for what it creates, else 0. */
  function ClientKey(id: int): int
  {
    if id == CONTROLLER_CONNECT then CONTROLLER_DISCONNECT
    else if id == CONTROLLER_GETEXTENSION then EXTENSION_RELEASE
    else if id == CONTROLLER_GETFILE then FILE_RELEASE
    else if id == CONTROLLER_GETROBOT then ROBOT_RELEASE
    else if id == CONTROLLER_GETTASK then TASK_RELEASE
    else if id == CONTROLLER_GETVARIABLE then VARIABLE_RELEASE
    else if id == CONTROLLER_GETCOMMAND then COMMAND_RELEASE
    else if id == CONTROLLER_GETMESSAGE then MESSAGE_RELEASE
    else if id == EXTENSION_GETVARIABLE then VARIABLE_RELEASE
    else if id == FILE_GETFILE then FILE_RELEASE
    else if id == FILE_GETVARIABLE then VARIABLE_RELEASE
    else if id == ROBOT_GETVARIABLE then VARIABLE_RELEASE
    else if id == TASK_GETVARIABLE then VARIABLE_RELEASE
    else 0
  }

  /** The functions for which ExecFunction remembers the handle it releases. */
  predicate ClientReleases(id: int)
  {
    id in {CONTROLLER_DISCONNECT, EXTENSION_RELEASE, FILE_RELEASE, ROBOT_RELEASE, TASK_RELEASE,
           VARIABLE_RELEASE, COMMAND_RELEASE, MESSAGE_RELEASE}
  }

  /** The cases of ExecFunction: everything but starting and stopping the service. */
  predicate ClientCalls(id: int)
  {
    CONTROLLER_CONNECT <= id < ID_MAX
  }

  /** The three tables, kept apart in the source, say the same. */
  lemma TablesAgree(id: int)
    ensures Gated(id) <==> RelationId(id) > 0
    ensures ClientCalls(id) ==> ClientKey(id) == (if RelationId(id) > 0 then RelationId(id) else 0)
    ensures ClientCalls(id) ==> (ClientReleases(id) <==> RelationId(id) < 0)
    ensures ClientReleases(id) ==> ClientKey(id) == 0
    ensures ClientKey(id) > 0 ==> ClientReleases(ClientKey(id))
  {
  }

  /** The table by number, and the requests a client calls. */
  lemma ByNumber(id: int)
    ensures ClientCalls(id) <==> 3 <= id <= 137
    ensures RelationId(id) ==
      if id == 1 then 2 else if id == 3 then 4 else if id == 5 then 36 else if id == 6 || id == 37 then 61
      else if id == 7 then 84 else if id == 8 then 99 else if id in {9, 26, 38, 62, 85} then 111
      else if id == 10 then 127 else if id == 18 then 137
      else if id in {2, 4, 36, 61, 84, 99, 111, 127, 137} then -1 else 0
  {
  }
}
