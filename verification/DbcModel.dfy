/** The canonical DBC database (runtime/canx/dbc/model.py): what its constructors accept. */
module DbcModel {
  import opened Wrappers

  const MAX_CLASSIC_PAYLOAD_LENGTH := 8
  const MAX_FD_PAYLOAD_LENGTH := 64

  datatype ByteOrder = LittleEndian | BigEndian

  datatype Choice = Choice(value: int, text: string)

  datatype Signal = Signal(
    name: string,
    startBit: nat,
    length: nat,
    byteOrder: ByteOrder,
    isSigned: bool,
    isFloat: bool,
    factor: real,
    offset: real,
    unit: Option<string>,
    choices: seq<Choice>,
    isMultiplexer: bool,
    multiplexerSignal: Option<string>,
    multiplexerIds: Option<seq<nat>>)

  datatype Message = Message(
    frameId: nat,
    name: string,
    length: nat,
    isExtended: bool,
    isFd: bool,
    signals: seq<Signal>)

  datatype Database = Database(messages: seq<Message>)

  ghost predicate ValidSignal(s: Signal) {
    && s.length >= 1
    && (forall i, j :: 0 <= i < j < |s.choices| ==> s.choices[i].value != s.choices[j].value)
    && (s.isMultiplexer ==> s.multiplexerSignal.None? && s.multiplexerIds.None?)
    && (s.multiplexerSignal.None? <==> s.multiplexerIds.None?)
  }

  ghost predicate DistinctNames(signals: seq<Signal>) {
    forall i, j :: 0 <= i < j < |signals| ==> signals[i].name != signals[j].name
  }

  ghost predicate ValidMessage(m: Message) {
    && m.length <= (if m.isFd then MAX_FD_PAYLOAD_LENGTH else MAX_CLASSIC_PAYLOAD_LENGTH)
    && (forall i :: 0 <= i < |m.signals| ==> ValidSignal(m.signals[i]))
    && DistinctNames(m.signals)
  }

  function Identifier(m: Message): (nat, bool) {
    (m.frameId, m.isExtended)
  }

  ghost predicate DistinctIdentifiers(messages: seq<Message>) {
    forall i, j :: 0 <= i < j < |messages| ==> Identifier(messages[i]) != Identifier(messages[j])
  }

  ghost predicate ValidDatabase(db: Database) {
    && (forall i :: 0 <= i < |db.messages| ==> ValidMessage(db.messages[i]))
    && DistinctIdentifiers(db.messages)
  }
}
