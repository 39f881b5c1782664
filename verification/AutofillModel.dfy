/** The entities of the autofill protocol: hints that sources report about one
    device, the candidates they resolve to, the device columns autofill may
    fill, and the records of what it filled (internal/store/autofill.go). */
module AutofillModel {
  /** A device column autofill may write. */
  datatype Col = Vendor | Model | Kind | Icon | Function | Name

  /** Every column, in the order decide walks them. */
  const SINGLE_FIELDS: seq<Col> := [Vendor, Model, Kind, Icon, Function, Name]

  /** What a hint is about: a column, or a tag to attach. */
  datatype Field = Column(col: Col) | Tag

  /** What a record is about: a column, or tag:<name>. */
  datatype Slot = ColumnSlot(col: Col) | TagSlot(name: string)

  datatype Hint = Hint(source: string, field: Field, value: string, confidence: int, detail: string, seenAt: string)

  datatype Candidate = Candidate(value: string, source: string, detail: string, confidence: int)

  datatype RecordState = Applied | Owned

  datatype Record = Record(slot: Slot, value: string, source: string, state: RecordState, updatedAt: string)

  /** A value for each column. */
  type Columns = m: map<Col, string> | forall c: Col :: c in m
    witness map c: Col :: ""

  datatype Device = Device(cols: Columns, reviewed: bool, source: string) {
    function Get(c: Col): string {
      cols[c]
    }

    function Set(c: Col, v: string): Device {
      this.(cols := cols[c := v])
    }
  }

  /** A compare-and-set on one column: `expected` is the value the pass read, and
      `unreviewed` makes an approval since then stop it too. */
  datatype Write = Write(col: Col, value: string, source: string, expected: string, unreviewed: bool)

  datatype TagAdd = TagAdd(name: string, source: string)

  /** A pass's decision: columns to set, tags to attach, records to hand over. */
  datatype Changes = Changes(writes: seq<Write>, tags: seq<TagAdd>, own: seq<Slot>)

  function SlotOf(h: Hint): Slot {
    match h.field
    case Column(c) => ColumnSlot(c)
    case Tag => TagSlot(h.value)
  }

  function CandidateOf(h: Hint): Candidate {
    Candidate(h.value, h.source, h.detail, h.confidence)
  }

  /** All six columns are listed. */
  lemma SingleFieldsComplete(c: Col)
    ensures c in SINGLE_FIELDS
  {
    match c
    case Vendor => assert SINGLE_FIELDS[0] == c;
    case Model => assert SINGLE_FIELDS[1] == c;
    case Kind => assert SINGLE_FIELDS[2] == c;
    case Icon => assert SINGLE_FIELDS[3] == c;
    case Function => assert SINGLE_FIELDS[4] == c;
    case Name => assert SINGLE_FIELDS[5] == c;
  }

  const PLACEHOLDER_PREFIXES: seq<string> := ["unknown-", "private-", "pihole-", "adguard-", "opnsense-"]

  predicate PlaceholderChar(c: char) {
    '0' <= c <= '9' || 'a' <= c <= 'f' || 'A' <= c <= 'F' || c == ':' || c == '.'
  }

  /** A name netis made up: a known prefix, then one or more hex digits, colons and dots. */
  predicate IsPlaceholderName(name: string) {
    exists i :: 0 <= i < |PLACEHOLDER_PREFIXES| &&
      var p := PLACEHOLDER_PREFIXES[i];
      p < name && forall k :: |p| <= k < |name| ==> PlaceholderChar(name[k])
  }

  /** A column autofill may fill without a record: blank, or as good as blank. */
  predicate IsEmpty(d: Device, c: Col, cur: string) {
    match c
    case Kind => cur == "" || cur == "other"
    case Name => !d.reviewed && IsPlaceholderName(cur)
    case _ => cur == ""
  }
}
