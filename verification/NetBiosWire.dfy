/** The NBSTAT parser against the wire format (section 4.2.18 of RFC 1002): what each byte of a name
    table says, and that a well-formed response reads back as the names it was made from. */
module NetBiosWire {
  import opened Options
  import opened Chains
  import opened NetBios

  // ----- the name table, byte by byte

  /** A number of two bytes, the high one first. */
  ghost predicate Reads16(data: seq<Byte>, at: int, value: int) {
    0 <= at && at + 2 <= |data| && var high: int, low: int := data[at], data[at + 1]; value == 256 * high + low
  }

  /** The name stands in fifteen bytes, filled up with blanks and zero bytes. */
  ghost predicate Pads(field: seq<Byte>, name: seq<Byte>) {
    && name <= field
    && (forall k | |name| <= k < |field| :: field[k] == 0x20 || field[k] == 0)
    && (name != [] ==> name[|name| - 1] != 0x20 && name[|name| - 1] != 0)
  }

  ghost predicate ReadsEntry(data: seq<Byte>, at: int, name: NetBiosName) {
    && 0 <= at && at + 18 <= |data|
    && Pads(data[at..at + 15], name.name) && name.suffix == data[at + 15] && Reads16(data, at + 16, name.flags)
  }

  ghost predicate HasControlByte(field: seq<Byte>) {
    exists b :: b in field && (0 < b < 0x20 || 0x7e < b)
  }

  lemma {:induction false} TrimMeaning(s: seq<Byte>)
    ensures Pads(s, TrimRight(s))
  {
    if s != [] && (s[|s| - 1] == 0x20 || s[|s| - 1] == 0) {
      TrimMeaning(s[..|s| - 1]);
    }
  }

  lemma EntryMeaning(data: seq<Byte>, i: nat)
    requires 1 + 18 * i + 18 <= |data|
    ensures ReadsEntry(data, 1 + 18 * i, EntryAt(data, i))
  {
    TrimMeaning(NameBytes(data, i));
  }

  /** The name of an entry holds a control byte. */
  ghost predicate BadEntry(data: seq<Byte>, i: nat) {
    1 + 18 * i + 15 <= |data| && HasControlByte(data[1 + 18 * i..1 + 18 * i + 15])
  }

  lemma ControlBytes(data: seq<Byte>, i: nat)
    requires 1 + 18 * i + 18 <= |data|
    ensures AllPrintable(NameBytes(data, i)) <==> !BadEntry(data, i)
  {
  }

  /** A table is rejected when it is empty, announces more than a hundred entries or more than it has
      bytes for, or has a control byte in a name; else each entry is read. */
  lemma TableMeaning(data: seq<Byte>, count: int)
    requires data != [] ==> count == data[0]
    ensures TableNames(data).Rejected? <==>
              || data == [] || count > 100 || 1 + 18 * count > |data|
              || exists i: nat :: i < count && BadEntry(data, i)
    ensures TableNames(data).Names? ==>
              && |TableNames(data).names| == count
              && forall i | 0 <= i < count :: ReadsEntry(data, 1 + 18 * i, TableNames(data).names[i])
  {
    if data != [] && count <= 100 && 1 + 18 * count <= |data| {
      forall i: nat | i < count
        ensures AllPrintable(NameBytes(data, i)) <==> !BadEntry(data, i)
        ensures ReadsEntry(data, 1 + 18 * i, EntryAt(data, i))
      {
        ControlBytes(data, i);
        EntryMeaning(data, i);
      }
    }
  }

  /** What a padded field holds is determined. */
  lemma PadsOneName(field: seq<Byte>, a: seq<Byte>, b: seq<Byte>)
    requires Pads(field, a) && Pads(field, b)
    ensures a == b
  {
    assert forall k | 0 <= k < |a| :: field[k] == a[k];
    assert forall k | 0 <= k < |b| :: field[k] == b[k];
  }

  // ----- the wire format

  /** The name stands in these bytes without compression: each label behind its length, and a zero. */
  ghost predicate HoldsName(data: seq<Byte>, at: int, labels: seq<seq<Byte>>, end: int)
    decreases |labels|
  {
    && 0 <= at < |data|
    && if labels == [] then data[at] == 0 && end == at + 1
       else
         && 1 <= |labels[0]| <= 63 && data[at] == |labels[0]| && at + 1 + |labels[0]| <= |data|
         && data[at + 1..at + 1 + |labels[0]|] == labels[0]
         && HoldsName(data, at + 1 + |labels[0]|, labels[1..], end)
  }

  ghost predicate HoldsQuestion(data: seq<Byte>, at: int, end: int) {
    exists labels :: |labels| <= 127 && HoldsName(data, at, labels, end - 4) && end <= |data|
  }

  /** The type, class, time to live, length and data of a record stand behind its name. */
  datatype Fields = Fields(rtype: int, rclass: int, size: int)

  ghost predicate HoldsFields(data: seq<Byte>, at: int, r: Fields, end: int) {
    && Reads16(data, at, r.rtype) && Reads16(data, at + 2, r.rclass) && Reads16(data, at + 8, r.size)
    && end == at + 10 + r.size <= |data|
  }

  ghost predicate HoldsRecord(data: seq<Byte>, at: int, r: Fields, end: int) {
    exists labels :: |labels| <= 127 && HoldsName(data, at, labels, end - 10 - r.size)
      && HoldsFields(data, end - 10 - r.size, r, end)
  }

  /** A node status record of the class of the Internet, whatever its top bit. */
  ghost predicate IsNodeStatus(r: Fields) {
    r.rtype == 0x21 && (r.rclass == 1 || r.rclass == 0x8001)
  }

  /** Questions, or records of other kinds, stand between consecutive places. */
  ghost predicate HoldsQuestions(data: seq<Byte>, places: seq<int>) {
    forall i | 0 <= i < |places| - 1 :: HoldsQuestion(data, places[i], places[i + 1])
  }

  ghost predicate HoldsOthers(data: seq<Byte>, places: seq<int>, others: seq<Fields>) {
    && |places| == |others| + 1
    && forall i | 0 <= i < |others| ::
         !IsNodeStatus(others[i]) && HoldsRecord(data, places[i], others[i], places[i + 1])
  }

  /** The number of names, and the names one after the other. */
  ghost predicate HoldsTable(table: seq<Byte>, names: seq<NetBiosName>) {
    && |names| <= 100 && table != [] && table[0] == |names|
    && forall i: nat | i < |names| :: ReadsEntry(table, 1 + 18 * i, names[i]) && !BadEntry(table, i)
  }

  /** A response to this request that is not an error. */
  ghost predicate HoldsHeader(data: seq<Byte>, id: int, questions: int, answers: int) {
    && |data| >= 12 && Reads16(data, 0, id) && Reads16(data, 4, questions) && Reads16(data, 6, answers)
    && exists bits :: 0 <= bits < 0x80 && Reads16(data, 2, 0x8000 + 0x10 * bits)
  }

  // ----- read back

  lemma WordReads(data: seq<Byte>, at: int, value: int)
    requires Reads16(data, at, value)
    ensures Word(data, at) == value
  {
  }

  lemma {:induction false} NameWalks(data: seq<Byte>, at: int, labels: seq<seq<Byte>>, end: int)
    requires HoldsName(data, at, labels, end)
    ensures at < end <= |data| && EndsIn(Walk(data), at, |labels|, end - 1) && data[end - 1] == 0
    ensures EndInPlace(data, at) == end
    decreases |labels|
  {
    if labels != [] {
      var next := at + 1 + |labels[0]|;
      NameWalks(data, next, labels[1..], end);
      OneMoreItem(data, at, next, |labels| - 1, end - 1);
    }
  }

  lemma OneMoreItem(data: seq<Byte>, at: int, next: int, n: nat, end: int)
    requires 0 <= at && ItemAt(data, at) == Label(next) && EndsIn(Walk(data), next, n, end)
    ensures EndsIn(Walk(data), at, n + 1, end)
  {
    assert Steps(Walk(data), at, 0) == Some(at) && Walk(data)(at) == Some(next);
    assert Steps(Walk(data), at, 1) == Some(next);
    StepsAdd(Walk(data), at, 1, n);
  }

  lemma NameReadsBack(data: seq<Byte>, at: int, labels: seq<seq<Byte>>, end: int)
    requires |labels| <= 127 && HoldsName(data, at, labels, end)
    ensures NameEnd(data, at) == Some(end) && at < end
  {
    NameWalks(data, at, labels, end);
  }

  lemma QuestionReadsBack(data: seq<Byte>, at: int, end: int, count: nat)
    requires HoldsQuestion(data, at, end) && count > 0
    ensures QuestionsEnd(data, at, count) == QuestionsEnd(data, end, count - 1)
  {
    var labels :| |labels| <= 127 && HoldsName(data, at, labels, end - 4) && end <= |data|;
    NameReadsBack(data, at, labels, end - 4);
  }

  lemma {:induction false} QuestionsReadBack(data: seq<Byte>, places: seq<int>)
    requires places != [] && HoldsQuestions(data, places)
    ensures QuestionsEnd(data, places[0], |places| - 1) == Some(places[|places| - 1])
    decreases |places|
  {
    if |places| > 1 {
      QuestionReadsBack(data, places[0], places[1], |places| - 1);
      QuestionsReadBack(data, places[1..]);
    }
  }

  lemma ClassBit(rclass: int)
    requires 0 <= rclass < 0x10000
    ensures rclass % 0x8000 == 1 <==> rclass == 1 || rclass == 0x8001
  {
  }

  lemma RecordReadsBack(data: seq<Byte>, at: int, r: Fields, end: int)
    requires HoldsRecord(data, at, r, end)
    ensures 0 <= r.size && 0 <= end - r.size && end <= |data|
    ensures AnswerAt(data, at) == if IsNodeStatus(r) then Table(end - r.size, end) else Other(end)
  {
    var labels :| |labels| <= 127 && HoldsName(data, at, labels, end - 10 - r.size)
                  && HoldsFields(data, end - 10 - r.size, r, end);
    NameReadsBack(data, at, labels, end - 10 - r.size);
    WordReads(data, end - 10 - r.size, r.rtype);
    WordReads(data, end - 8 - r.size, r.rclass);
    WordReads(data, end - 2 - r.size, r.size);
    ClassBit(r.rclass);
  }

  ghost predicate StepsOver(data: seq<Byte>, places: seq<int>) {
    forall i | 0 <= i < |places| - 1 :: GoesOn(data, places[i], places[i + 1])
  }

  ghost predicate GoesOn(data: seq<Byte>, at: int, next: int) {
    AnswerAt(data, at).Other? && AnswerAt(data, at).next == next
  }

  lemma GoOn(data: seq<Byte>, at: int, next: int, count: nat)
    requires GoesOn(data, at, next) && count > 0
    ensures AnswerNames(data, at, count) == AnswerNames(data, next, count - 1)
  {
  }

  lemma OthersStepOver(data: seq<Byte>, places: seq<int>, others: seq<Fields>)
    requires HoldsOthers(data, places, others)
    ensures StepsOver(data, places)
  {
    forall i | 0 <= i < |places| - 1 ensures GoesOn(data, places[i], places[i + 1]) {
      RecordReadsBack(data, places[i], others[i], places[i + 1]);
    }
  }

  lemma {:induction false} OthersReadBack(data: seq<Byte>, places: seq<int>, count: nat)
    requires places != [] && StepsOver(data, places) && count >= |places| - 1
    ensures AnswerNames(data, places[0], count) == AnswerNames(data, places[|places| - 1], count - (|places| - 1))
    decreases |places|
  {
    if |places| > 1 {
      GoOn(data, places[0], places[1], count);
      OthersReadBack(data, places[1..], count - 1);
    }
  }

  lemma TableReadsBack(table: seq<Byte>, names: seq<NetBiosName>)
    requires HoldsTable(table, names)
    ensures TableNames(table) == Names(names)
  {
    if names != [] {
      assert ReadsEntry(table, 1 + 18 * (|names| - 1), names[|names| - 1]);
    }
    TableMeaning(table, |names|);
    forall i: nat | i < |names| ensures TableNames(table).names[i] == names[i] {
      var read := TableNames(table).names[i];
      assert ReadsEntry(table, 1 + 18 * i, names[i]) && ReadsEntry(table, 1 + 18 * i, read);
      PadsOneName(table[1 + 18 * i..1 + 18 * i + 15], names[i].name, read.name);
    }
  }

  lemma HeaderReadsBack(data: seq<Byte>, id: int, questions: int, answers: int)
    requires HoldsHeader(data, id, questions, answers) && questions <= 16 && answers <= 64
    ensures HeaderFits(data, id) && Word(data, 4) == questions && Word(data, 6) == answers
  {
    WordReads(data, 0, id);
    WordReads(data, 4, questions);
    WordReads(data, 6, answers);
    var bits :| 0 <= bits < 0x80 && Reads16(data, 2, 0x8000 + 0x10 * bits);
    WordReads(data, 2, 0x8000 + 0x10 * bits);
    FlagBits(bits);
  }

  lemma FlagBits(bits: int)
    requires 0 <= bits < 0x80
    ensures var flags := 0x8000 + 0x10 * bits; flags / 0x800 % 16 == 0 && flags % 16 == 0
  {
  }

  lemma AnswersReadBack(
      data: seq<Byte>, skipped: seq<int>, others: seq<Fields>, answer: Fields, end: int, answers: nat,
      names: seq<NetBiosName>)
    requires |others| < answers && HoldsOthers(data, skipped, others)
    requires IsNodeStatus(answer) && HoldsRecord(data, skipped[|others|], answer, end)
    requires 0 <= end - answer.size <= end <= |data| && HoldsTable(data[end - answer.size..end], names)
    ensures AnswerNames(data, skipped[0], answers) == Names(names)
  {
    OthersStepOver(data, skipped, others);
    OthersReadBack(data, skipped, answers);
    FoundReadsBack(data, skipped[|others|], answer, end, answers - |others|, names);
  }

  lemma FoundReadsBack(
      data: seq<Byte>, at: int, answer: Fields, end: int, count: nat, names: seq<NetBiosName>)
    requires IsNodeStatus(answer) && HoldsRecord(data, at, answer, end) && count > 0
    requires 0 <= end - answer.size <= end <= |data| && HoldsTable(data[end - answer.size..end], names)
    ensures AnswerNames(data, at, count) == Names(names)
  {
    RecordReadsBack(data, at, answer, end);
    TableReadsBack(data[end - answer.size..end], names);
  }

  /** A well-formed response reads back as its names: behind at most sixteen questions, and behind any
      records of other kinds, it has a node status record among at most sixty-four answers. */
  lemma ResponseReadsBack(
      data: seq<Byte>, id: int, asked: seq<int>, skipped: seq<int>, others: seq<Fields>, answer: Fields, end: int,
      answers: int, names: seq<NetBiosName>)
    requires 1 <= |asked| <= 17 && |others| < answers <= 64 && HoldsHeader(data, id, |asked| - 1, answers)
    requires asked[0] == 12 && HoldsQuestions(data, asked)
    requires HoldsOthers(data, skipped, others) && skipped[0] == asked[|asked| - 1]
    requires IsNodeStatus(answer) && HoldsRecord(data, skipped[|others|], answer, end)
    requires 0 <= end - answer.size <= end <= |data| && HoldsTable(data[end - answer.size..end], names)
    ensures ResponseNames(data, id) == Names(names)
  {
    HeaderReadsBack(data, id, |asked| - 1, answers);
    QuestionsReadBack(data, asked);
    AnswersReadBack(data, skipped, others, answer, end, answers, names);
  }
}
