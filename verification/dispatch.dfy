/**
  What the capture script's WebSocket listener (`websocket_client` in
  src/python/raw.py) does with one received message. The transport, the JSON
  decoder and the archive and sync commands are outside the model; what remains
  is the decision: arm the trigger, archive and sync, ignore, or stop listening.
 */
module Dispatch {
  import opened Wrappers

  /** The message type that arms the trigger. The code compares against "TRIGG", not "TRIGGER". */
  const TRIGGER_TYPE: string := "TRIGG"

  /** The message type that asks for the latest session directory to be archived and synced. */
  const COMPRESS_TYPE: string := "COMPRESS_AND_SYNC"

  /**
    One event on the WebSocket connection.
    - `Object(kind)`: a text frame that decodes to a JSON object; `kind` is its
      "type" entry when that entry is a string, `None` when the entry is absent or
      is not a string (such a value equals neither recognised type).
    - `Malformed`: a text frame that is not JSON (`json.loads` raises), JSON that is
      not an object, or a binary frame (both have no `.get`, which raises).
    - `Closed`: the connection was closed (`websockets.ConnectionClosed`).
   */
  datatype Message = Object(kind: Option<string>) | Malformed | Closed

  /** What the listener asks of the rest of the program. */
  datatype Command = ArmTrigger | CompressAndSync | NoCommand

  /** The listener's command and whether it goes on to receive another message. */
  datatype Receipt = Receipt(command: Command, keepListening: bool)

  /**
    The listener as written. A "COMPRESS_AND_SYNC" message evaluates `OUTPUT_DIR`,
    a name that is only ever assigned as a local variable of `main`; the lookup
    raises `NameError` before anything is archived, and since only
    `ConnectionClosed` is caught, the listener thread ends.
   */
  function ReceiveAsWritten(m: Message): (r: Receipt)
    ensures r.command == ArmTrigger <==> m == Object(Some(TRIGGER_TYPE))
    ensures r.command != CompressAndSync
    ensures r.keepListening <==> m.Object? && m.kind != Some(COMPRESS_TYPE)
  {
    match m
    case Object(kind) =>
      if kind == Some(TRIGGER_TYPE) then Receipt(ArmTrigger, true)
      else if kind == Some(COMPRESS_TYPE) then Receipt(NoCommand, false)
      else Receipt(NoCommand, true)
    case Malformed => Receipt(NoCommand, false)
    case Closed => Receipt(NoCommand, false)
  }

  /**
    The listener with the archive command reaching the session directory it
    names: "COMPRESS_AND_SYNC" asks for archive and sync and the listener keeps
    running. Every other branch is the code's own.
   */
  function Receive(m: Message): (r: Receipt)
    ensures r.command == ArmTrigger <==> m == Object(Some(TRIGGER_TYPE))
    ensures r.command == CompressAndSync <==> m == Object(Some(COMPRESS_TYPE))
    ensures r.keepListening <==> m.Object?
  {
    match m
    case Object(kind) =>
      if kind == Some(TRIGGER_TYPE) then Receipt(ArmTrigger, true)
      else if kind == Some(COMPRESS_TYPE) then Receipt(CompressAndSync, true)
      else Receipt(NoCommand, true)
    case Malformed => Receipt(NoCommand, false)
    case Closed => Receipt(NoCommand, false)
  }

  /** The commands a listener issues for a run of messages, stopping at the first message it does not survive. */
  function Listen(messages: seq<Message>, corrected: bool): (cs: seq<Command>)
    ensures |cs| <= |messages|
    decreases |messages|
  {
    if messages == [] then []
    else
      var r := if corrected then Receive(messages[0]) else ReceiveAsWritten(messages[0]);
      [r.command] + (if r.keepListening then Listen(messages[1..], corrected) else [])
  }

  /**
    As written, a "COMPRESS_AND_SYNC" message silences the remote trigger for
    good: a later "TRIGG" on the same connection never arms anything. With the
    correction the same two messages archive and then arm.
   */
  lemma CompressMessageEndsRemoteTriggering()
    ensures Listen([Object(Some(COMPRESS_TYPE)), Object(Some(TRIGGER_TYPE))], false) == [NoCommand]
    ensures Listen([Object(Some(COMPRESS_TYPE)), Object(Some(TRIGGER_TYPE))], true) == [CompressAndSync, ArmTrigger]
  {
    var ms := [Object(Some(COMPRESS_TYPE)), Object(Some(TRIGGER_TYPE))];
    assert ms[1..] == [Object(Some(TRIGGER_TYPE))];
    assert ms[1..][1..] == [];
  }

  /**
    With the correction, a listener that only ever receives JSON objects keeps
    running through all of them and issues exactly one command per message.
   */
  lemma {:induction false} CorrectedListenerSurvivesObjects(messages: seq<Message>)
    requires forall i :: 0 <= i < |messages| ==> messages[i].Object?
    ensures |Listen(messages, true)| == |messages|
    ensures forall i :: 0 <= i < |messages| ==> Listen(messages, true)[i] == Receive(messages[i]).command
    decreases |messages|
  {
    if messages != [] {
      CorrectedListenerSurvivesObjects(messages[1..]);
    }
  }
}
