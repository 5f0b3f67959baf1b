/** The NBSTAT parser (section 4.2.18 of RFC 1002) and the walk over a compressed name, with jumps
    to other places of the message (section 4.1.4 of RFC 1035), that it relies on. */
module NetBios {
  import opened Options
  import opened Chains

  type Byte = b: int | 0 <= b < 256

  const NODE_STATUS_TYPE := 0x21
  const CLASS_IN := 1

  // ----- the walk

  /** What stands at a position of a name. */
  datatype Item = Terminator | Jump(target: int) | Label(next: int) | Malformed

  function ItemAt(data: seq<Byte>, position: int): Item
    requires 0 <= position
  {
    if position >= |data| then Malformed
    else
      var length: int := data[position];
      if length >= 0xc0 then
        if position + 1 >= |data| then Malformed
        else
          var target := (length - 0xc0) * 256 + data[position + 1];
          if target >= |data| then Malformed else Jump(target)
      else if length >= 0x40 then Malformed
      else if length == 0 then Terminator
      else if position + 1 + length > |data| then Malformed
      else Label(position + 1 + length)
  }

  function Successor(data: seq<Byte>, position: int): Option<int> {
    if position < 0 then None
    else
      match ItemAt(data, position)
      case Jump(target) => Some(target)
      case Label(next) => Some(next)
      case Terminator => None
      case Malformed => None
  }

  ghost function Walk(data: seq<Byte>): int -> Option<int> {
    position => Successor(data, position)
  }

  /** The chain of labels and jumps from here reaches a terminator within 128 items. */
  ghost predicate NameEnds(data: seq<Byte>, offset: int) {
    exists n, end :: 0 <= n <= 127 && 0 <= end < |data| && EndsIn(Walk(data), offset, n, end) && data[end] == 0
  }

  /** Where the name stops in place: behind its terminator or behind its first jump. */
  function EndInPlace(data: seq<Byte>, position: int): int
    requires 0 <= position
    decreases |data| - position
  {
    match ItemAt(data, position)
    case Terminator => position + 1
    case Jump(_) => position + 2
    case Label(next) => EndInPlace(data, next)
    case Malformed => position
  }

  /** What skipping a name gives: where it stops, if it ends at all. */
  ghost function NameEnd(data: seq<Byte>, offset: int): Option<int> {
    if 0 <= offset < |data| && NameEnds(data, offset) then Some(EndInPlace(data, offset)) else None
  }

  datatype Skip = Skipped(end: int) | OutOfBounds | BadItem | CompressionLoop | TooLong

  ghost predicate Repeats(data: seq<Byte>, offset: int, limit: nat) {
    exists k: nat, j: nat :: k < j <= limit
      && Steps(Walk(data), offset, j).Some? && Steps(Walk(data), offset, k) == Steps(Walk(data), offset, j)
  }

  /** Which of the outcomes the walk from an offset has. */
  ghost predicate IsSkip(data: seq<Byte>, offset: int, r: Skip) {
    match r
    case Skipped(end) => NameEnd(data, offset) == Some(end)
    case OutOfBounds => !(0 <= offset < |data|)
    case BadItem =>
      0 <= offset < |data|
      && exists n, end :: 0 <= n <= 127 && EndsIn(Walk(data), offset, n, end) && !(0 <= end < |data| && data[end] == 0)
    case CompressionLoop => 0 <= offset < |data| && Repeats(data, offset, 127)
    case TooLong => 0 <= offset < |data| && Steps(Walk(data), offset, 128).Some? && !Repeats(data, offset, 127)
  }

  /** The outcome is determined: a name is skipped exactly when it ends within 128 items. */
  lemma SkipIsDetermined(data: seq<Byte>, offset: int, r: Skip, s: Skip)
    requires IsSkip(data, offset, r) && IsSkip(data, offset, s)
    ensures r == s
  {
    if 0 <= offset < |data| {
      SkipExcludes(data, offset, r);
      SkipExcludes(data, offset, s);
    }
  }

  ghost predicate EndsEarly(data: seq<Byte>, offset: int) {
    exists n, end :: 0 <= n <= 127 && EndsIn(Walk(data), offset, n, end)
  }

  lemma SkipExcludes(data: seq<Byte>, offset: int, r: Skip)
    requires 0 <= offset < |data| && IsSkip(data, offset, r)
    ensures r == if EndsEarly(data, offset) && NameEnds(data, offset) then Skipped(EndInPlace(data, offset))
                 else if EndsEarly(data, offset) then BadItem
                 else if Repeats(data, offset, 127) then CompressionLoop else TooLong
  {
    forall n: nat, end | n <= 127 && EndsIn(Walk(data), offset, n, end)
      ensures !Repeats(data, offset, 127) && Steps(Walk(data), offset, 128) == None
      ensures NameEnds(data, offset) <==> 0 <= end < |data| && data[end] == 0
    {
      EndExcludes(data, offset, n, end);
    }
  }

  lemma EndExcludes(data: seq<Byte>, offset: int, n: nat, end: int)
    requires n <= 127 && EndsIn(Walk(data), offset, n, end)
    ensures !Repeats(data, offset, 127) && Steps(Walk(data), offset, 128) == None
    ensures NameEnds(data, offset) <==> 0 <= end < |data| && data[end] == 0
  {
    PastTheEnd(Walk(data), offset, n, end, 128);
    forall k: nat, j: nat | k < j <= 127 && Steps(Walk(data), offset, j).Some?
      ensures Steps(Walk(data), offset, k) != Steps(Walk(data), offset, j)
    {
      PastTheEnd(Walk(data), offset, n, end, j);
      EndingChainNeverRevisits(Walk(data), offset, n, end, k, j);
    }
    forall m: nat, e | EndsIn(Walk(data), offset, m, e) ensures e == end {
      EndIsUnique(Walk(data), offset, n, end, m, e);
    }
  }

  /** A chain that comes back to an item is never accepted, however long the way round is. */
  lemma CyclesAreRefused(data: seq<Byte>, offset: int, limit: nat)
    requires Repeats(data, offset, limit)
    ensures NameEnd(data, offset) == None
  {
    var k: nat, j: nat :| k < j <= limit
      && Steps(Walk(data), offset, j).Some? && Steps(Walk(data), offset, k) == Steps(Walk(data), offset, j);
    forall n, end | 0 <= n <= 127 && EndsIn(Walk(data), offset, n, end) ensures false {
      PastTheEnd(Walk(data), offset, n, end, j);
      EndingChainNeverRevisits(Walk(data), offset, n, end, k, j);
    }
  }

  /** A name that is skipped moves the offset forward, within the data. */
  lemma {:induction false} EndInPlaceBounds(data: seq<Byte>, position: int)
    requires 0 <= position < |data|
    ensures position <= EndInPlace(data, position) <= |data|
    ensures ItemAt(data, position) != Malformed ==> position < EndInPlace(data, position)
    decreases |data| - position
  {
    match ItemAt(data, position)
    case Label(next) =>
      if next < |data| {
        EndInPlaceBounds(data, next);
      }
    case _ =>
  }

  lemma SkippedMovesForward(data: seq<Byte>, offset: int)
    requires NameEnd(data, offset).Some?
    ensures offset < NameEnd(data, offset).value <= |data|
  {
    EndInPlaceBounds(data, offset);
    var n, end :| 0 <= n <= 127 && 0 <= end < |data| && EndsIn(Walk(data), offset, n, end) && data[end] == 0;
    if ItemAt(data, offset) == Malformed {
      EndIsUnique(Walk(data), offset, n, end, 0, offset);
    }
  }

  /** The walk has come to `position` along a path without a repetition; what was seen is that
      path, and where the name ends in place is known. */
  ghost predicate Walked(
      data: seq<Byte>, offset: int, path: seq<int>, position: int, seen: set<int>, consumedEnd: int)
  {
    && 0 <= offset < |data| && 0 <= position <= |data| && Steps(Walk(data), offset, |path|) == Some(position)
    && (forall k: nat | k < |path| :: Steps(Walk(data), offset, k) == Some(path[k]))
    && (forall i, j | 0 <= i < j < |path| :: path[i] != path[j])
    && (forall p :: p in seen <==> p in path)
    && EndInPlace(data, offset) == if consumedEnd >= 0 then consumedEnd else EndInPlace(data, position)
  }

  lemma WalkStops(data: seq<Byte>, offset: int, path: seq<int>, position: int, seen: set<int>, consumedEnd: int)
    requires Walked(data, offset, path, position, seen, consumedEnd) && |path| <= 127
    ensures ItemAt(data, position) == Malformed ==> IsSkip(data, offset, BadItem)
    ensures ItemAt(data, position) == Terminator ==>
              var end := if consumedEnd >= 0 then consumedEnd else position + 1;
              IsSkip(data, offset, Skipped(end)) && offset < end <= |data|
  {
    if ItemAt(data, position) == Malformed || ItemAt(data, position) == Terminator {
      assert EndsIn(Walk(data), offset, |path|, position);
      if ItemAt(data, position) == Terminator {
        assert NameEnds(data, offset);
        SkippedMovesForward(data, offset);
      }
    }
  }

  lemma WalkLoops(data: seq<Byte>, offset: int, path: seq<int>, position: int, seen: set<int>, consumedEnd: int)
    requires Walked(data, offset, path, position, seen, consumedEnd) && |path| <= 127 && position in seen
    ensures IsSkip(data, offset, CompressionLoop)
  {
    var k: nat :| k < |path| && path[k] == position;
    assert Steps(Walk(data), offset, k) == Steps(Walk(data), offset, |path|);
  }

  lemma WalkIsTooLong(data: seq<Byte>, offset: int, path: seq<int>, position: int, seen: set<int>, consumedEnd: int)
    requires Walked(data, offset, path, position, seen, consumedEnd) && |path| == 128
    ensures IsSkip(data, offset, TooLong)
  {
    forall k: nat, j: nat | k < j <= 127 ensures Steps(Walk(data), offset, k) != Steps(Walk(data), offset, j) {
      assert path[k] != path[j];
    }
  }

  lemma WalkGoesOn(
      data: seq<Byte>, offset: int, path: seq<int>, position: int, seen: set<int>, consumedEnd: int, next: int,
          nextEnd: int)
    requires Walked(data, offset, path, position, seen, consumedEnd) && position !in seen && position < |data|
    requires ItemAt(data, position) == Jump(next) || ItemAt(data, position) == Label(next)
    requires nextEnd == if ItemAt(data, position).Jump? && consumedEnd < 0 then position + 2 else consumedEnd
    ensures Walked(data, offset, path + [position], next, seen + {position}, nextEnd)
  {
    assert Steps(Walk(data), offset, |path| + 1) == Some(next);
  }

  /** The part of the loop below about one item. */
  method ReadItem(data: seq<Byte>, position: nat) returns (item: Item)
    requires position < |data|
    ensures item == ItemAt(data, position)
  {
    var length: int := data[position];
    if length >= 0xc0 {
      if position + 1 >= |data| {
        return Malformed;
      }
      var target := (length - 0xc0) * 256 + data[position + 1];
      if target >= |data| {
        return Malformed;
      }
      return Jump(target);
    }
    if length >= 0x40 {
      return Malformed;
    }
    if length == 0 {
      return Terminator;
    }
    if position + 1 + length > |data| {
      return Malformed;
    }
    return Label(position + 1 + length);
  }

  method SkipDnsName(data: seq<Byte>, offset: int) returns (r: Skip)
    ensures IsSkip(data, offset, r)
    ensures r.Skipped? ==> offset < r.end <= |data|
  {
    if offset < 0 || offset >= |data| {
      return OutOfBounds;
    }
    var position, consumedEnd := offset, -1;
    var seen: set<int> := {};
    ghost var path: seq<int> := [];
    for steps := 0 to 128
      invariant |path| == steps && Walked(data, offset, path, position, seen, consumedEnd)
    {
      WalkStops(data, offset, path, position, seen, consumedEnd);
      if position >= |data| {
        return BadItem;
      }
      if position in seen {
        WalkLoops(data, offset, path, position, seen, consumedEnd);
        return CompressionLoop;
      }
      var item := ReadItem(data, position);
      match item {
        case Malformed => return BadItem;
        case Terminator => return Skipped(if consumedEnd >= 0 then consumedEnd else position + 1);
        case Jump(target) =>
          var end := if consumedEnd < 0 then position + 2 else consumedEnd;
          WalkGoesOn(data, offset, path, position, seen, consumedEnd, target, end);
          path, seen, consumedEnd, position := path + [position], seen + {position}, end, target;
        case Label(next) =>
          WalkGoesOn(data, offset, path, position, seen, consumedEnd, next, consumedEnd);
          path, seen, position := path + [position], seen + {position}, next;
      }
    }
    WalkIsTooLong(data, offset, path, position, seen, consumedEnd);
    return TooLong;
  }

  // ----- the response

  function Word(data: seq<Byte>, i: int): int
    requires 0 <= i && i + 2 <= |data|
  {
    var high: int, low: int := data[i], data[i + 1];
    high * 256 + low
  }

  datatype NetBiosName = NetBiosName(name: seq<Byte>, suffix: Byte, flags: int)

  datatype Names = Names(names: seq<NetBiosName>) | Rejected

  /** The name without trailing blanks and zero bytes. */
  function TrimRight(s: seq<Byte>): seq<Byte> {
    if s != [] && (s[|s| - 1] == 0x20 || s[|s| - 1] == 0) then TrimRight(s[..|s| - 1]) else s
  }

  predicate Printable(b: Byte) {
    b == 0 || 0x20 <= b <= 0x7e
  }

  predicate AllPrintable(s: seq<Byte>) {
    forall b | b in s :: Printable(b)
  }

  function NameBytes(data: seq<Byte>, i: nat): seq<Byte>
    requires 1 + 18 * i + 18 <= |data|
  {
    data[1 + 18 * i..1 + 18 * i + 15]
  }

  function Count(data: seq<Byte>): int
    requires data != []
  {
    data[0]
  }

  /** One entry of the name table: fifteen bytes of name, a suffix and flags. */
  function EntryAt(data: seq<Byte>, i: nat): NetBiosName
    requires 1 + 18 * i + 18 <= |data|
  {
    var at := 1 + 18 * i;
    NetBiosName(TrimRight(NameBytes(data, i)), data[at + 15], Word(data, at + 16))
  }

  ghost predicate IsTable(data: seq<Byte>) {
    && |data| >= 1 && Count(data) <= 100 && 1 + 18 * Count(data) <= |data|
    && forall i | 0 <= i < Count(data) :: AllPrintable(NameBytes(data, i))
  }

  /** The table is read completely, or rejected when it is too long or holds control bytes. */
  ghost function TableNames(data: seq<Byte>): Names {
    if IsTable(data) then Names(seq(Count(data), i requires 0 <= i < Count(data) => EntryAt(data, i))) else Rejected
  }

  method ParseTable(data: seq<Byte>) returns (r: Names)
    ensures r == TableNames(data)
    ensures r.Names? ==> |r.names| == Count(data) <= 100
  {
    if |data| < 1 {
      return Rejected;
    }
    var count := Count(data);
    if count > 100 || 1 + count * 18 > |data| {
      return Rejected;
    }
    var names: seq<NetBiosName> := [];
    var offset := 1;
    for i := 0 to count
      invariant offset == 1 + 18 * i && |names| == i
      invariant forall k | 0 <= k < i :: names[k] == EntryAt(data, k)
      invariant forall k | 0 <= k < i :: AllPrintable(NameBytes(data, k))
    {
      var entry := data[offset..offset + 18];
      var nameBytes := entry[..15];
      assert nameBytes == NameBytes(data, i);
      for j := 0 to |nameBytes|
        invariant AllPrintable(nameBytes[..j])
      {
        if !Printable(nameBytes[j]) {
          return Rejected;
        }
        assert nameBytes[..j + 1] == nameBytes[..j] + [nameBytes[j]];
      }
      assert nameBytes[..|nameBytes|] == nameBytes;
      names := names + [NetBiosName(TrimRight(nameBytes), entry[15], Word(entry, 16))];
      offset := offset + 18;
    }
    r := Names(names);
  }

  /** Where so many questions end. */
  ghost function QuestionsEnd(data: seq<Byte>, offset: int, count: nat): Option<int>
    decreases count
  {
    if count == 0 then Some(offset)
    else
      match NameEnd(data, offset)
      case None => None
      case Some(end) => if end + 4 > |data| then None else QuestionsEnd(data, end + 4, count - 1)
  }

  /** An answer record: malformed, the wanted table, or another record to step over. */
  datatype Answer = Broken | Table(start: nat, end: nat) | Other(next: nat)

  ghost function AnswerAt(data: seq<Byte>, offset: int): (a: Answer)
    ensures a.Table? ==> a.start <= a.end <= |data|
    ensures a.Other? ==> a.next <= |data|
  {
    match NameEnd(data, offset)
    case None => Broken
    case Some(end) =>
      if end < 0 || end + 10 > |data| || end + 10 + Word(data, end + 8) > |data| then Broken
      else if Word(data, end) == NODE_STATUS_TYPE && Word(data, end + 2) % 0x8000 == CLASS_IN
      then Table(end + 10, end + 10 + Word(data, end + 8))
      else Other(end + 10 + Word(data, end + 8))
  }

  /** The names of the first NBSTAT answer among so many. */
  ghost function AnswerNames(data: seq<Byte>, offset: int, count: nat): Names
    decreases count
  {
    if count == 0 then Rejected
    else
      match AnswerAt(data, offset)
      case Broken => Rejected
      case Table(start, end) => TableNames(data[start..end])
      case Other(next) => AnswerNames(data, next, count - 1)
  }

  ghost predicate HeaderFits(data: seq<Byte>, transactionId: int) {
    && |data| >= 12 && Word(data, 0) == transactionId
    && Word(data, 2) >= 0x8000 && Word(data, 2) / 0x800 % 16 == 0 && Word(data, 2) % 16 == 0
    && Word(data, 4) <= 16 && Word(data, 6) <= 64
  }

  /** What a response says: the names of its first NBSTAT answer behind its questions. */
  ghost function ResponseNames(data: seq<Byte>, transactionId: int): Names {
    if !HeaderFits(data, transactionId) then Rejected
    else
      match QuestionsEnd(data, 12, Word(data, 4))
      case None => Rejected
      case Some(offset) => AnswerNames(data, offset, Word(data, 6))
  }

  lemma SkipGivesNameEnd(data: seq<Byte>, offset: int, r: Skip)
    requires IsSkip(data, offset, r)
    ensures NameEnd(data, offset) == if r.Skipped? then Some(r.end) else None
  {
    if NameEnd(data, offset).Some? {
      SkipIsDetermined(data, offset, r, Skipped(NameEnd(data, offset).value));
    }
  }

  method SkipQuestions(data: seq<Byte>, count: nat) returns (end: Option<int>)
    requires |data| >= 12
    ensures end == QuestionsEnd(data, 12, count)
    ensures end.Some? ==> 12 <= end.value <= |data|
  {
    var offset := 12;
    for i := 0 to count
      invariant 12 <= offset <= |data|
      invariant QuestionsEnd(data, 12, count) == QuestionsEnd(data, offset, count - i)
    {
      var name := SkipDnsName(data, offset);
      SkipGivesNameEnd(data, offset, name);
      if !name.Skipped? || name.end + 4 > |data| {
        return None;
      }
      offset := name.end + 4;
    }
    end := Some(offset);
  }

  method ParseNodeStatusResponse(data: seq<Byte>, expectedTransactionId: int) returns (r: Names)
    ensures r == ResponseNames(data, expectedTransactionId)
    ensures r.Names? ==> |r.names| <= 100
  {
    if |data| < 12 {
      return Rejected;
    }
    if Word(data, 0) != expectedTransactionId {
      return Rejected;
    }
    var flags := Word(data, 2);
    if flags < 0x8000 || flags / 0x800 % 16 != 0 || flags % 16 != 0 {
      return Rejected;
    }
    var questions, answers := Word(data, 4), Word(data, 6);
    if questions > 16 || answers > 64 {
      return Rejected;
    }
    var start := SkipQuestions(data, questions);
    if start.None? {
      return Rejected;
    }
    r := FindNames(data, start.value, answers);
  }

  method FindNames(data: seq<Byte>, start: int, answers: nat) returns (r: Names)
    requires 0 <= start <= |data|
    ensures r == AnswerNames(data, start, answers)
    ensures r.Names? ==> |r.names| <= 100
  {
    var offset := start;
    for i := 0 to answers
      invariant 0 <= offset <= |data|
      invariant AnswerNames(data, start, answers) == AnswerNames(data, offset, answers - i)
    {
      var answer := ReadAnswer(data, offset);
      match answer {
        case Broken => return Rejected;
        case Table(start, end) =>
          r := ParseTable(data[start..end]);
          return;
        case Other(next) => offset := next;
      }
    }
    return Rejected;
  }

  /** The body of the loop above, up to the decision about the record. */
  method ReadAnswer(data: seq<Byte>, offset: int) returns (a: Answer)
    ensures a == AnswerAt(data, offset)
  {
    var name := SkipDnsName(data, offset);
    SkipGivesNameEnd(data, offset, name);
    if !name.Skipped? || name.end + 10 > |data| {
      return Broken;
    }
    var end := name.end;
    var rrType, rrClass, length := Word(data, end), Word(data, end + 2), Word(data, end + 8);
    if end + 10 + length > |data| {
      return Broken;
    }
    if rrType == NODE_STATUS_TYPE && rrClass % 0x8000 == CLASS_IN {
      return Table(end + 10, end + 10 + length);
    }
    return Other(end + 10 + length);
  }
}
