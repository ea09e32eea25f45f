/**
 Line framing of JSON-RPC messages (components/stratum/stratum_api.c): a growing buffer turns
 a byte stream that arrives in arbitrary chunks into lines.
 */
module LineFramer {
  import opened Digits
  import opened Options

  type Bytes = seq<byte>

  /** BUFFER_SIZE */
  const UNIT: nat := 1024

  /** MAX_JSON_RPC_LINE_LEN */
  const MAX_LINE: nat := 0x4000

  const NEWLINE: byte := 10

  /** What one transport read can deliver; no bytes at all is a timeout. */
  type Chunk = s: Bytes | |s| < UNIT witness []

  /** The results of the coming reads. A transport with nothing left to deliver fails. */
  datatype Reading = Data(bytes: Chunk) | Failure

  // ---------- strings ----------

  /** The part of a byte sequence that counts as a C string. */
  function Text(s: Bytes): (t: Bytes)
    ensures |t| == IndexOf(s, 0)
  {
    s[..IndexOf(s, 0)]
  }

  predicate HasLine(text: Bytes) {
    IndexOf(text, NEWLINE) < |text|
  }

  // ---------- one call ----------

  /** A call ends with a line, or with the connection given up and the buffered text freed. */
  datatype Outcome =
    | Line(line: Bytes, text: Bytes, todo: seq<Reading>)
    | Dropped(text: Bytes, todo: seq<Reading>)
    | Failed(text: Bytes, todo: seq<Reading>)

  /** STRATUM_V1_receive_jsonrpc_line, on the buffered text and the readings to come. */
  function Receive(text: Bytes, todo: seq<Reading>): (r: Outcome)
    ensures |r.todo| <= |todo|
    ensures r.Line? && |r.todo| == |todo| ==> |r.text| < |text|
    decreases |todo|
  {
    var i := IndexOf(text, NEWLINE);
    if i < |text| then Line(text[..i], text[i + 1..], todo)
    else if todo == [] then Failed(text, [])
    else match todo[0]
      case Failure => Failed(text, todo[1..])
      case Data(bytes) =>
        if |text + Text(bytes)| > MAX_LINE then Dropped(text + Text(bytes), todo[1..])
        else Receive(text + Text(bytes), todo[1..])
  }

  /** One turn of the loop. */
  lemma ReceiveStep(text: Bytes, todo: seq<Reading>)
    requires !HasLine(text) && |text| <= MAX_LINE
    ensures todo == [] || todo[0].Failure? ==>
      Receive(text, todo) == Failed(text, if todo == [] then [] else todo[1..])
    ensures todo != [] && todo[0].Data? ==>
      Receive(text, todo) == (
        if |text + Text(todo[0].bytes)| > MAX_LINE then Dropped(text + Text(todo[0].bytes), todo[1..])
        else Receive(text + Text(todo[0].bytes), todo[1..]))
    ensures todo != [] && todo[0].Data? && todo[0].bytes == [] ==> Receive(text, todo) == Receive(text, todo[1..])
  {
    if todo != [] && todo[0].Data? && todo[0].bytes == [] {
      assert text + Text([]) == text;
    }
  }

  lemma ReceiveLineNow(text: Bytes, todo: seq<Reading>)
    requires HasLine(text)
    ensures var i := IndexOf(text, NEWLINE);
      Receive(text, todo) == Line(text[..i], text[i + 1..], todo)
  {
  }

  // ---------- all calls on a connection ----------

  /** The lines of successive calls until one fails, and what was buffered then. */
  datatype Ended = Ended(lines: seq<Bytes>, kept: Bytes, dropped: bool, todo: seq<Reading>)

  function Session(text: Bytes, todo: seq<Reading>): (e: Ended)
    ensures |e.todo| <= |todo|
    decreases |todo|, |text|
  {
    match Receive(text, todo)
    case Line(line, text', todo') =>
      var rest := Session(text', todo');
      Ended([line] + rest.lines, rest.kept, rest.dropped, rest.todo)
    case Dropped(kept, todo') => Ended([], kept, true, todo')
    case Failed(kept, todo') => Ended([], kept, false, todo')
  }

  /** The bytes that readings deliver. */
  function Stream(readings: seq<Reading>): Bytes {
    if readings == [] then []
    else (if readings[0].Data? then Text(readings[0].bytes) else []) + Stream(readings[1..])
  }

  /** Lines put back together. */
  function Join(lines: seq<Bytes>): Bytes {
    if lines == [] then [] else lines[0] + [NEWLINE] + Join(lines[1..])
  }

  /** A byte sequence cut at every line end; the last piece is not a line yet. */
  function Split(s: Bytes): (r: (seq<Bytes>, Bytes))
    decreases |s|
  {
    var i := IndexOf(s, NEWLINE);
    if i == |s| then ([], s) else
      var (lines, last) := Split(s[i + 1..]);
      ([s[..i]] + lines, last)
  }

  /** Nothing is cut off from a chunk exactly if it holds no NUL. */
  lemma TextWhole(s: Bytes)
    ensures Text(s) == s <==> 0 !in s
  {
  }

  lemma LineFirst(line: Bytes, rest: Bytes)
    requires !HasLine(line)
    ensures var s := line + [NEWLINE] + rest;
      IndexOf(s, NEWLINE) == |line| && s[..|line|] == line && s[|line| + 1..] == rest
  {
    IndexOfConcat(line, [NEWLINE] + rest, NEWLINE);
    assert line + [NEWLINE] + rest == line + ([NEWLINE] + rest);
  }

  lemma NoLine(s: Bytes)
    ensures HasLine(s) <==> NEWLINE in s
  {
  }

  lemma SplitLine(line: Bytes, rest: Bytes)
    requires !HasLine(line)
    ensures Split(line + [NEWLINE] + rest) == ([line] + Split(rest).0, Split(rest).1)
  {
    LineFirst(line, rest);
  }

  /** There is one way to cut a byte sequence into lines. */
  lemma {:induction false} SplitUnique(lines: seq<Bytes>, last: Bytes)
    requires forall i :: 0 <= i < |lines| ==> !HasLine(lines[i])
    requires !HasLine(last)
    ensures Split(Join(lines) + last) == (lines, last)
    decreases |lines|
  {
    if lines == [] {
      assert Join(lines) + last == last;
    } else {
      hide HasLine, Split;
      var rest := Join(lines[1..]) + last;
      assert Join(lines) + last == lines[0] + [NEWLINE] + rest;
      SplitLine(lines[0], rest);
      SplitUnique(lines[1..], last);
      assert lines == [lines[0]] + lines[1..];
    }
  }

  /** What a call took from the stream is in its line and its buffer. */
  predicate Conserves(text: Bytes, todo: seq<Reading>, r: Outcome) {
    && |r.todo| <= |todo|
    && var used := todo[..|todo| - |r.todo|];
    && text + Stream(used) == (if r.Line? then r.line + [NEWLINE] + r.text else r.text)
    && r.todo == todo[|used|..]
    && (r.Line? ==> !HasLine(r.line))
    && (r.Failed? ==> !HasLine(r.text))
  }

  /** One call conserves bytes. */
  lemma {:induction false} ReceiveConserves(text: Bytes, todo: seq<Reading>)
    ensures Conserves(text, todo, Receive(text, todo))
    decreases |todo|
  {
    if HasLine(text) {
      LineConserves(text, todo);
    } else if todo == [] {
      assert todo[..0] == [] && text + [] == text;
    } else if todo[0].Failure? {
      assert todo[..1][0] == todo[0] && todo[..1][1..] == [] && text + [] == text;
      assert Stream(todo[..1]) == [];
    } else {
      hide Conserves, Text, IndexOf, Stream;
      var more := text + Text(todo[0].bytes);
      if |more| > MAX_LINE {
        DropConserves(text, todo);
      } else {
        ReceiveConserves(more, todo[1..]);
        MoreConserves(text, todo, Receive(more, todo[1..]));
      }
    }
  }

  lemma LineConserves(text: Bytes, todo: seq<Reading>)
    requires HasLine(text)
    ensures Conserves(text, todo, Receive(text, todo))
  {
    assert todo[..0] == [] && text + [] == text;
    var i := IndexOf(text, NEWLINE);
    IndexOfUnique(text[..i], NEWLINE, i);
  }

  lemma DropConserves(text: Bytes, todo: seq<Reading>)
    requires todo != [] && todo[0].Data?
    ensures Conserves(text, todo, Dropped(text + Text(todo[0].bytes), todo[1..]))
  {
    hide Text;
    var more := Text(todo[0].bytes);
    assert todo[..1][0] == todo[0] && todo[..1][1..] == [] && more + [] == more;
    assert Stream(todo[..1]) == more;
  }

  lemma MoreConserves(text: Bytes, todo: seq<Reading>, r: Outcome)
    requires todo != [] && todo[0].Data? && Conserves(text + Text(todo[0].bytes), todo[1..], r)
    ensures Conserves(text, todo, r)
  {
    hide Text, HasLine;
    var chunk, n := Text(todo[0].bytes), |todo| - |r.todo|;
    var rest := Stream(todo[1..][..n - 1]);
    assert todo[..n][0] == todo[0] && todo[..n][1..] == todo[1..][..n - 1];
    assert text + (chunk + rest) == text + chunk + rest;
  }

  lemma {:induction false} StreamConcat(a: seq<Reading>, b: seq<Reading>)
    ensures Stream(a + b) == Stream(a) + Stream(b)
    decreases |a|
  {
    if a == [] {
      assert a + b == b;
    } else {
      assert (a + b)[1..] == a[1..] + b;
      StreamConcat(a[1..], b);
    }
  }

  lemma Regroup(text: Bytes, used: Bytes, later: Bytes, front: Bytes, rest: Bytes, joined: Bytes, kept: Bytes)
    requires text + used == front + rest && rest + later == joined + kept
    ensures text + (used + later) == front + joined + kept
  {
    assert text + (used + later) == (text + used) + later;
    assert (front + rest) + later == front + (rest + later);
    assert front + (joined + kept) == front + joined + kept;
  }

  /**
   Over all calls: the lines returned, with their line ends, and what is still buffered are
   exactly the bytes received. The lines hold no line end, and neither does what is left
   unless the connection was dropped.
   */
  lemma {:induction false} SessionConserves(text: Bytes, todo: seq<Reading>)
    ensures var e := Session(text, todo);
      && text + Stream(todo[..|todo| - |e.todo|]) == Join(e.lines) + e.kept
      && e.todo == todo[|todo| - |e.todo|..]
      && (forall i :: 0 <= i < |e.lines| ==> !HasLine(e.lines[i]))
      && (!e.dropped ==> !HasLine(e.kept))
    decreases |todo|, |text|
  {
    hide Receive, Stream, HasLine;
    ReceiveConserves(text, todo);
    var r, e := Receive(text, todo), Session(text, todo);
    if r.Line? {
      SessionConserves(r.text, r.todo);
      var used, later := todo[..|todo| - |r.todo|], r.todo[..|r.todo| - |e.todo|];
      assert r.todo == todo[|used|..];
      assert used + later == todo[..|todo| - |e.todo|];
      StreamConcat(used, later);
      var rest := Session(r.text, r.todo);
      assert e.lines[1..] == rest.lines;
      var front := r.line + [NEWLINE];
      assert Join(e.lines) == front + Join(rest.lines);
      Regroup(text, Stream(used), Stream(later), front, r.text, Join(rest.lines), e.kept);
    } else {
      assert Join([]) + e.kept == e.kept;
    }
  }

  /**
   For every chunking of the stream on which the connection is not dropped, the lines returned
   by successive calls are the stream cut at its line ends, and the rest is what is buffered.
   */
  lemma LinesOfStream(text: Bytes, todo: seq<Reading>)
    requires !Session(text, todo).dropped
    ensures var e := Session(text, todo);
      Split(text + Stream(todo[..|todo| - |e.todo|])) == (e.lines, e.kept)
  {
    hide *;
    SessionConserves(text, todo);
    var e := Session(text, todo);
    SplitUnique(e.lines, e.kept);
  }

  // ---------- when a connection is dropped ----------

  /** No piece between line ends is longer than a limit. */
  predicate Fits(s: Bytes, limit: nat)
    decreases |s|
  {
    var i := IndexOf(s, NEWLINE);
    i <= limit && (i < |s| ==> Fits(s[i + 1..], limit))
  }

  lemma FitsFirst(text: Bytes, more: Bytes, limit: nat)
    requires Fits(text + more, limit)
    ensures !HasLine(text) ==> |text| <= limit
    ensures HasLine(text) ==>
      var i := IndexOf(text, NEWLINE);
      Fits(text[i + 1..] + more, limit)
  {
    hide IndexOf;
    IndexOfConcat(text, more, NEWLINE);
    var s, i := text + more, IndexOf(text, NEWLINE);
    if i < |text| {
      assert s[i + 1..] == text[i + 1..] + more;
    }
  }

  /** Short enough lines are never dropped, however they are chunked. */
  lemma {:induction false} ShortLinesSafe(text: Bytes, todo: seq<Reading>)
    requires Fits(text + Stream(todo), MAX_LINE - (UNIT - 1))
    ensures !Session(text, todo).dropped
    decreases |todo|, |text|
  {
    hide Fits;
    FitsFirst(text, Stream(todo), MAX_LINE - (UNIT - 1));
    if HasLine(text) {
      ReceiveLineNow(text, todo);
      ShortLinesSafe(text[IndexOf(text, NEWLINE) + 1..], todo);
    } else if todo != [] && todo[0].Data? {
      var more := Text(todo[0].bytes);
      assert text + Stream(todo) == (text + more) + Stream(todo[1..]);
      ReceiveStep(text, todo);
      ShortLinesSafe(text + more, todo[1..]);
      assert Session(text, todo) == Session(text + more, todo[1..]);
    } else {
      ReceiveStep(text, todo);
    }
  }

  /** A text delivered one byte at a time. */
  function Bytewise(s: Bytes): (r: seq<Reading>)
    ensures |r| == |s|
  {
    if s == [] then [] else [Data([s[0]])] + Bytewise(s[1..])
  }

  lemma StreamOne(b: byte)
    requires b != 0
    ensures Stream([Data([b])]) == [b]
  {
    TextWhole([b]);
    assert [Data([b])][1..] == [];
  }

  lemma TailClean(s: Bytes, x: byte)
    requires s != [] && x !in s
    ensures s[0] != x && x !in s[1..] && s == [s[0]] + s[1..]
  {
  }

  lemma BytewiseStep(s: Bytes, later: seq<Reading>)
    requires s != []
    ensures Bytewise(s) + later == [Data([s[0]])] + (Bytewise(s[1..]) + later)
  {
    var first, rest := Data([s[0]]), Bytewise(s[1..]);
    assert Bytewise(s) == [first] + rest;
    hide *;
    SpreadHead(first, rest, later);
  }

  lemma {:induction false} BytewiseStream(s: Bytes, later: seq<Reading>)
    requires 0 !in s
    ensures Stream(Bytewise(s) + later) == s + Stream(later)
    decreases |s|
  {
    if s == [] {
      assert Bytewise(s) + later == later && s + Stream(later) == Stream(later);
    } else {
      hide *;
      TailClean(s, 0);
      BytewiseStep(s, later);
      SpreadHead(s[0], s[1..], Stream(later));
      StreamOne(s[0]);
      StreamConcat([Data([s[0]])], Bytewise(s[1..]) + later);
      BytewiseStream(s[1..], later);
    }
  }

  /** A byte that ends nothing is added to the buffer. */
  lemma OneByte(text: Bytes, b: byte, later: seq<Reading>)
    requires b != 0 && b != NEWLINE && !HasLine(text) && |text| < MAX_LINE
    ensures Receive(text, [Data([b])] + later) == Receive(text + [b], later)
    ensures !HasLine(text + [b])
  {
    hide Receive;
    TextWhole([b]);
    IndexOfConcat(text, [b], NEWLINE);
    ReceiveStep(text, [Data([b])] + later);
    assert ([Data([b])] + later)[1..] == later;
  }

  /** Delivering a text without line ends byte by byte just fills the buffer. */
  lemma {:induction false} BytewiseFills(text: Bytes, s: Bytes, later: seq<Reading>)
    requires 0 !in s && NEWLINE !in s && !HasLine(text) && |text| + |s| <= MAX_LINE
    ensures Receive(text, Bytewise(s) + later) == Receive(text + s, later)
    decreases |s|
  {
    if s == [] {
      assert text + s == text && Bytewise(s) + later == later;
    } else {
      hide Receive, Text, HasLine;
      assert Bytewise(s) + later == [Data([s[0]])] + (Bytewise(s[1..]) + later);
      OneByte(text, s[0], Bytewise(s[1..]) + later);
      BytewiseFills(text + [s[0]], s[1..], later);
      assert (text + [s[0]]) + s[1..] == text + s;
    }
  }

  /** A chunk that ends a line and goes on with a next one. */
  const ENDING: Chunk := [NEWLINE] + seq(UNIT - 2, _ => 'a' as int)

  /**
   Every longer line is dropped when it arrives byte by byte and its end in a full chunk: before
   its end if it exceeds the length limit itself, and otherwise although it then is complete.
   */
  lemma LongerLineDropped(line: Bytes)
    requires 0 !in line && NEWLINE !in line && MAX_LINE - (UNIT - 1) < |line|
    ensures var todo := Bytewise(line) + [Data(ENDING)];
      Stream(todo) == line + ENDING && Session([], todo).dropped
  {
    hide Receive, Text, Bytewise;
    var last := [Data(ENDING)];
    BytewiseStream(line, last);
    TextWhole(ENDING);
    assert Stream(last) == ENDING + Stream([]) == ENDING;
    if |line| <= MAX_LINE {
      assert [] + line == line;
      NoLine([]);
      BytewiseFills([], line, last);
      NoLine(line);
      ReceiveStep(line, last);
    } else {
      TooLong(line, last);
    }
  }

  lemma TooLong(line: Bytes, later: seq<Reading>)
    requires 0 !in line && NEWLINE !in line && MAX_LINE < |line|
    ensures Session([], Bytewise(line) + later).dropped
  {
    hide Receive, Text, Bytewise;
    var front, rest := line[..MAX_LINE], line[MAX_LINE..];
    var todo := Bytewise(rest) + later;
    assert line == front + rest && [] + front == front;
    BytewiseConcat(front, rest);
    assert (Bytewise(front) + Bytewise(rest)) + later == Bytewise(front) + todo;
    NoLine([]);
    BytewiseFills([], front, todo);
    NoLine(front);
    BytewiseStep(rest, later);
    TextWhole([rest[0]]);
    ReceiveStep(front, todo);
  }

  lemma {:induction false} BytewiseConcat(a: Bytes, b: Bytes)
    ensures Bytewise(a + b) == Bytewise(a) + Bytewise(b)
    decreases |a|
  {
    if a == [] {
      assert a + b == b;
    } else {
      assert (a + b)[1..] == a[1..] + b;
      BytewiseConcat(a[1..], b);
    }
  }

  lemma EndingFits(line: Bytes, limit: nat)
    requires !HasLine(line) && |line| <= limit && UNIT <= limit
    ensures Fits(line + ENDING, limit)
  {
    var next := ENDING[1..];
    assert line + ENDING == line + [NEWLINE] + next;
    LineFirst(line, next);
    NoLine(next);
  }

  /**
   A limit on line lengths keeps the connection from being dropped, on every stream and every
   chunking of it, exactly up to one chunk below the length limit of the code.
   */
  lemma SafeLength(limit: nat)
    ensures (forall todo :: Fits(Stream(todo), limit) ==> !Session([], todo).dropped)
      <==> limit <= MAX_LINE - (UNIT - 1)
  {
    if limit <= MAX_LINE - (UNIT - 1) {
      forall todo | Fits(Stream(todo), limit)
        ensures !Session([], todo).dropped
      {
        FitsMore(Stream(todo), limit, MAX_LINE - (UNIT - 1));
        assert [] + Stream(todo) == Stream(todo);
        ShortLinesSafe([], todo);
      }
    } else {
      var line := seq<byte>(MAX_LINE - (UNIT - 2), _ => 'a' as int);
      LongerLineDropped(line);
      NoLine(line);
      EndingFits(line, limit);
      assert Fits(Stream(Bytewise(line) + [Data(ENDING)]), limit);
    }
  }

  lemma {:induction false} FitsMore(s: Bytes, a: nat, b: nat)
    requires Fits(s, a) && a <= b
    ensures Fits(s, b)
    decreases |s|
  {
    hide IndexOf;
    var i := IndexOf(s, NEWLINE);
    if i < |s| {
      FitsMore(s[i + 1..], a, b);
    }
  }

  // ---------- the buffer ----------

  class Framer {
    var buffer: array?<byte>
    var size: nat

    /** The buffer, unless freed, holds a terminated text with room to spare, and never grows beyond 18 units. */
    ghost predicate Valid()
      reads this, buffer
    {
      buffer != null ==>
        && buffer.Length == size && size <= MAX_LINE + 2 * UNIT
        && |Text(buffer[..])| < size && |Text(buffer[..])| <= MAX_LINE
    }

    /** The text buffered so far. */
    ghost function Buffered(): Bytes
      reads this, buffer
    {
      if buffer == null then [] else Text(buffer[..])
    }

    constructor ()
      ensures Valid() && buffer == null
    {
      buffer, size := null, 0;
    }

    /** STRATUM_V1_initialize_buffer */
    method Initialize()
      modifies this
      ensures Valid() && buffer != null && fresh(buffer) && Buffered() == []
    {
      buffer := new byte[UNIT](_ => 0);
      size := UNIT;
      IndexOfUnique(buffer[..], 0, 0);
    }

    /** strchr and strlen */
    static method Find(a: array<byte>, x: byte, from: nat, to: nat) returns (i: nat)
      requires from <= to <= a.Length
      ensures i == IndexOf(a[from..to], x)
    {
      i := 0;
      while i < to - from
        invariant 0 <= i <= to - from
        invariant forall k :: 0 <= k < i ==> a[from..to][k] != x
      {
        if a[from + i] == x {
          break;
        }
        i := i + 1;
      }
      IndexOfUnique(a[from..to], x, i);
    }

    /** realloc_json_buffer: room for len more bytes and a terminator, in whole units. */
    method Reallocate(len: nat)
      requires Valid() && buffer != null && len < UNIT
      modifies this
      ensures Valid() && buffer != null && Buffered() == old(Buffered())
      ensures |Buffered()| + len + 1 <= size
      ensures buffer == old(buffer) || fresh(buffer)
    {
      var used := Find(buffer, 0, 0, buffer.Length);
      assert buffer[0..buffer.Length] == buffer[..];
      var wanted := used + len + 1;
      if wanted < size {
        return;
      }
      wanted := wanted + (UNIT - wanted % UNIT);
      ghost var text := Buffered();
      var bigger := new byte[wanted];
      forall k | 0 <= k < wanted { bigger[k] := if k < used then buffer[k] else 0; }
      assert bigger[..used] == text;
      TextIs(bigger[..], text);
      buffer := bigger;
      size := wanted;
    }

    /** strncat: the bytes up to the first NUL, and a new terminator. */
    method Append(bytes: Chunk)
      requires Valid() && buffer != null && |Buffered()| + |bytes| + 1 <= size
      modifies buffer
      ensures buffer.Length == size && Text(buffer[..]) == old(Buffered()) + Text(bytes)
      ensures |Text(buffer[..])| < size
    {
      var used := Find(buffer, 0, 0, buffer.Length);
      assert buffer[0..buffer.Length] == buffer[..];
      ghost var text := Buffered() + Text(bytes);
      ghost var before := buffer[..];
      var n := IndexOf(bytes, 0);
      forall k | 0 <= k < n { buffer[used + k] := bytes[k]; }
      buffer[used + n] := 0;
      assert buffer[..used + n] == text;
      TextIs(buffer[..], text);
    }

    /** The line up to the line end; what is behind it moves to the front. */
    method TakeLine() returns (line: Bytes)
      requires Valid() && buffer != null && HasLine(Buffered())
      modifies buffer
      ensures Valid()
      ensures var text := old(Buffered());
        var i := IndexOf(text, NEWLINE);
        line == text[..i] && Buffered() == text[i + 1..]
    {
      hide IndexOf;
      var used := Find(buffer, 0, 0, buffer.Length);
      assert buffer[0..buffer.Length] == buffer[..];
      assert buffer[0..used] == Buffered();
      var i := Find(buffer, NEWLINE, 0, used);
      line := buffer[..i];
      MoveDown(i + 1, used);
    }

    /** memmove of what is left to the front, and a new terminator. */
    method MoveDown(from: nat, used: nat)
      requires Valid() && buffer != null && 0 < from <= used == |Buffered()|
      modifies buffer
      ensures Valid() && Buffered() == old(Buffered())[from..]
    {
      ghost var text := Buffered();
      assert text == buffer[..used];
      var rest := used - from;
      if rest > 0 {
        forall k | 0 <= k < rest { buffer[k] := buffer[from + k]; }
        buffer[rest] := 0;
      } else {
        buffer[0] := 0;
      }
      assert buffer[..rest] == text[from..];
      TextIs(buffer[..], text[from..]);
    }

    /** STRATUM_V1_receive_jsonrpc_line */
    method ReceiveLine(transport: Transport) returns (line: Option<Bytes>)
      requires Valid()
      modifies this, buffer, transport
      ensures Valid()
      ensures var r := Receive(old(Buffered()), old(transport.todo));
        && transport.todo == r.todo
        && (r.Line? ==> line == Some(r.line) && buffer != null && Buffered() == r.text)
        && (!r.Line? ==> line == None && buffer == null)
        && (r.Dropped? ==> size == 0)
      ensures buffer != null ==> buffer.Length <= 18432
    {
      hide Text, IndexOf, Receive, HasLine;
      if buffer == null {
        Initialize();
      }
      ghost var r := Receive(old(Buffered()), old(transport.todo));
      var ends := EndsInLine();
      while !ends
        invariant Valid() && buffer != null && (fresh(buffer) || buffer == old(buffer))
        invariant r == Receive(Buffered(), transport.todo)
        invariant ends == HasLine(Buffered())
        decreases |transport.todo|
      {
        var goes := ReadMore(transport);
        if !goes {
          return None;
        }
        ends := EndsInLine();
      }
      ReceiveLineNow(Buffered(), transport.todo);
      var text := TakeLine();
      line := Some(text);
    }

    /** The loop body: one reading, or the buffer freed. */
    method ReadMore(transport: Transport) returns (goes: bool)
      requires Valid() && buffer != null && !HasLine(Buffered())
      modifies this, buffer, transport
      ensures Valid() && (goes <==> buffer != null) && (buffer == null || buffer == old(buffer) || fresh(buffer))
      ensures goes ==>
        && |transport.todo| < |old(transport.todo)|
        && Receive(old(Buffered()), old(transport.todo)) == Receive(Buffered(), transport.todo)
      ensures !goes ==>
        var r := Receive(old(Buffered()), old(transport.todo));
        !r.Line? && transport.todo == r.todo && (r.Dropped? ==> size == 0)
    {
      hide Text, IndexOf, Receive, HasLine;
      ReceiveStep(Buffered(), transport.todo);
      var reading := transport.Read();
      if reading.Failure? {
        buffer := null;
        return false;
      }
      if |reading.bytes| > 0 {
        var long := Extend(reading.bytes);
        if long {
          buffer, size := null, 0;
          return false;
        }
      }
      goes := true;
    }

    /** The loop condition. */
    method EndsInLine() returns (ends: bool)
      requires Valid() && buffer != null
      ensures ends == HasLine(Buffered())
    {
      var used := Find(buffer, 0, 0, buffer.Length);
      assert buffer[0..buffer.Length] == buffer[..] && buffer[0..used] == Buffered();
      var i := Find(buffer, NEWLINE, 0, used);
      ends := i < used;
    }

    /** One chunk appended, and the check of the length limit. */
    method Extend(bytes: Chunk) returns (long: bool)
      requires Valid() && buffer != null
      modifies this, buffer
      ensures buffer != null && (buffer == old(buffer) || fresh(buffer))
      ensures long == (|old(Buffered()) + Text(bytes)| > MAX_LINE)
      ensures !long ==> Valid() && Buffered() == old(Buffered()) + Text(bytes)
    {
      hide IndexOf;
      Reallocate(|bytes|);
      Append(bytes);
      var used := Find(buffer, 0, 0, buffer.Length);
      assert buffer[0..buffer.Length] == buffer[..];
      long := used > MAX_LINE;
    }
  }

  lemma TextIs(s: Bytes, text: Bytes)
    requires |text| < |s| && s[..|text|] == text && s[|text|] == 0 && 0 !in text
    ensures IndexOf(s, 0) == |text| && Text(s) == text
  {
    forall i | 0 <= i < |text|
      ensures s[i] != 0
    {
      assert s[i] == text[i];
    }
    IndexOfUnique(s, 0, |text|);
  }

  /** esp_transport_read, with the readings to come given in advance. */
  class Transport {
    var todo: seq<Reading>

    constructor (todo: seq<Reading>)
      ensures this.todo == todo
    {
      this.todo := todo;
    }

    method Read() returns (r: Reading)
      modifies this
      ensures old(todo) == [] ==> r == Failure && todo == []
      ensures old(todo) != [] ==> r == old(todo)[0] && todo == old(todo)[1..]
    {
      if todo == [] {
        return Failure;
      }
      r := todo[0];
      todo := todo[1..];
    }
  }
}
