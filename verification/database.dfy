/**
 `Database.execute_query`: open a connection, run one parameterised
 statement, and hand back the fetched rows for a read, the cursor's
 `lastrowid` after a commit for a write, or `None` when the connection
 cannot be made or the connector raises.

 The MySQL connector is not modelled; a `Connector` value is an oracle that
 says what each of its calls would do.
 */
module Database {
  import opened Wrappers
  import opened PyStr

  /** A value bound to a `%s` placeholder or read back from a column. */
  datatype Value = Text(s: string) | Number(n: int) | Null

  /** One fetched row, as the dictionary cursor returns it. */
  type Row = map<string, Value>

  /** What `execute_query` returns: `None`, a list of rows, or an integer
      `lastrowid`. */
  datatype QueryResult = NoneResult | Rows(rows: seq<Row>) | RowId(id: int)

  /** Python truthiness of a returned value, which is all the handlers test. */
  predicate Truthy(r: QueryResult) {
    match r
    case NoneResult => false
    case Rows(rows) => |rows| > 0
    case RowId(id) => id != 0
  }

  /** The connector calls made after a connection exists, in program order. */
  datatype Step = OpenCursor | RunStatement | FetchRows | Commit | CloseCursor | CloseConnection

  /** What the connector does when called: whether `connect()` succeeds,
      which call (if any) raises `mysql.connector.Error`, the rows a fetch
      returns and the cursor's `lastrowid` after a write. */
  datatype Connector = Connector(
    connects: bool,
    raisesAt: Option<Step>,
    rows: seq<Row>,
    lastRowId: Option<int>)

  /** Observable effect of each connector call, in the same order. */
  datatype Event =
    | CursorOpened
    | Executed(query: string, params: seq<Value>)
    | Fetched
    | Committed
    | CursorClosed
    | ConnectionClosed

  datatype Execution = Execution(result: QueryResult, events: seq<Event>)

  /** The statement is a read iff, stripped of surrounding whitespace and
      upper-cased, it starts with "SELECT". */
  predicate IsRead(query: string) {
    StartsWith(Upper(Strip(query)), "SELECT")
  }

  /** Whether call `st` is made on the path for a read or a write: a read
      fetches and never commits, a write commits and never fetches. */
  predicate OnPath(st: Step, read: bool) {
    match st
    case FetchRows => read
    case Commit => !read
    case _ => true
  }

  /** Position of call `st` on its path. */
  function Position(st: Step): nat {
    match st
    case OpenCursor => 0
    case RunStatement => 1
    case FetchRows => 2
    case Commit => 2
    case CloseCursor => 3
    case CloseConnection => 4
  }

  /** The effects of a connection that no call interrupts. */
  function Trace(read: bool, query: string, args: seq<Value>): seq<Event> {
    [CursorOpened, Executed(query, args), if read then Fetched else Committed, CursorClosed, ConnectionClosed]
  }

  /** `params or ()`: `None` (and an empty tuple) are executed as `()`. */
  function Arguments(params: Option<seq<Value>>): seq<Value>
  {
    match params
    case None => []
    case Some(ps) => ps
  }

  /** `Database.execute_query(query, params)` against connector `c`. */
  function Execute(c: Connector, query: string, params: Option<seq<Value>>): (x: Execution)
    // No connection: `None`, and nothing is executed.
    ensures !c.connects ==> x == Execution(NoneResult, [])
    // Rows come only from a read, exactly as fetched, and without a commit.
    ensures x.result.Rows? ==> IsRead(query) && x.result.rows == c.rows && Committed !in x.events
    // A row id comes only from a committed write, and it is the cursor's.
    ensures x.result.RowId? ==> !IsRead(query) && Committed in x.events && c.lastRowId == Some(x.result.id)
    // A commit happens only for a write.
    ensures Committed in x.events ==> !IsRead(query)
    // A healthy connector returns the rows for a read and the row id for a write.
    ensures c.connects && c.raisesAt.None? && IsRead(query) ==> x.result == Rows(c.rows)
    ensures c.connects && c.raisesAt.None? && !IsRead(query) && c.lastRowId.Some?
            ==> x.result == RowId(c.lastRowId.value)
    // A healthy read fetches; a healthy write commits, whatever `lastrowid` is.
    ensures c.connects && c.raisesAt.None? ==> (if IsRead(query) then Fetched else Committed) in x.events
    // Whatever is executed is the query with `params or ()`.
    ensures forall e :: e in x.events && e.Executed? ==> e == Executed(query, Arguments(params))
    // An `Error` raised on the way makes the result `None` and leaves the connection open.
    ensures c.connects && c.raisesAt.Some? && OnPath(c.raisesAt.value, IsRead(query))
            ==> x.result == NoneResult && ConnectionClosed !in x.events
    // Only a raise from `connection.close()` itself comes after the cursor is closed.
    ensures c.connects && c.raisesAt.Some? && c.raisesAt.value != CloseConnection
            && OnPath(c.raisesAt.value, IsRead(query))
            ==> CursorClosed !in x.events
    // With no raise, the statement is executed and cursor and connection are both closed.
    ensures c.connects && (c.raisesAt.None? || !OnPath(c.raisesAt.value, IsRead(query)))
            ==> Executed(query, Arguments(params)) in x.events
                && CursorClosed in x.events && ConnectionClosed in x.events
    // Both are closed whenever a value other than `None` comes back.
    ensures x.result != NoneResult ==> CursorClosed in x.events && ConnectionClosed in x.events
  {
    if !c.connects then Execution(NoneResult, [])
    else Run(c, IsRead(query), query, Arguments(params))
  }

  /** The `try` block of `execute_query` once a connection exists, for a
      statement already classified as a read or a write. */
  function Run(c: Connector, read: bool, query: string, args: seq<Value>): (x: Execution)
    ensures x.result.Rows? ==> read && x.result.rows == c.rows && Committed !in x.events
    ensures x.result.RowId? ==> !read && Committed in x.events && c.lastRowId == Some(x.result.id)
    ensures Committed in x.events ==> !read
    ensures c.raisesAt.None? && read ==> x.result == Rows(c.rows)
    ensures c.raisesAt.None? && !read && c.lastRowId.Some? ==> x.result == RowId(c.lastRowId.value)
    ensures c.raisesAt.None? ==> (if read then Fetched else Committed) in x.events
    ensures forall e :: e in x.events && e.Executed? ==> e == Executed(query, args)
    ensures c.raisesAt.Some? && OnPath(c.raisesAt.value, read)
            ==> x.result == NoneResult && ConnectionClosed !in x.events
    ensures c.raisesAt.Some? && c.raisesAt.value != CloseConnection && OnPath(c.raisesAt.value, read)
            ==> CursorClosed !in x.events
    ensures c.raisesAt.None? || !OnPath(c.raisesAt.value, read)
            ==> Executed(query, args) in x.events && CursorClosed in x.events && ConnectionClosed in x.events
    ensures x.result != NoneResult ==> CursorClosed in x.events && ConnectionClosed in x.events
  {
    var trace := Trace(read, query, args);
    if c.raisesAt.Some? && OnPath(c.raisesAt.value, read) then
      // `except Error`: the calls before the raising one happened; nothing is closed after it.
      var k := Position(c.raisesAt.value);
      assert trace[..4] == trace[..3] + [CursorClosed];
      Execution(NoneResult, trace[..k])
    else if read then Execution(Rows(c.rows), trace)
    else
      match c.lastRowId
      case Some(id) => Execution(RowId(id), trace)
      case None => Execution(NoneResult, trace)
  }

  /** Trailing whitespace never changes the classification: the test can be
      read as "the upper-cased text after leading whitespace starts with
      SELECT". */
  lemma IsReadIgnoresTrailing(query: string)
    ensures IsRead(query) <==> StartsWith(Upper(TrimLeft(query)), "SELECT")
  {
    var t := TrimLeft(query);
    var b := TrailingSpace(t);
    assert Strip(query) == t[..b];
    if b >= 6 {
      assert Upper(t)[..6] == Upper(t[..b])[..6];
    } else if b < |t| {
      assert Upper(t)[b] == t[b];
      assert "SELECT"[b] != t[b];
    }
  }

  /** Leading whitespace never changes the classification. */
  lemma LeadingWhitespaceIgnored(w: string, query: string)
    requires forall k :: 0 <= k < |w| ==> IsSpace(w[k])
    ensures IsRead(w + query) <==> IsRead(query)
  {
    var i, j := LeadingSpace(w + query), |w| + LeadingSpace(query);
    assert (w + query)[j..] == query[LeadingSpace(query)..];
    assert i == j;
    IsReadIgnoresTrailing(w + query);
    IsReadIgnoresTrailing(query);
  }

  /** After leading whitespace, the first non-blank character and what
      follows decide the classification on their own. */
  lemma FirstWordDecides(w: string, word: string, rest: string)
    requires forall i :: 0 <= i < |w| ==> IsSpace(w[i])
    requires word != [] && !IsSpace(word[0])
    ensures IsRead(w + word + rest) <==> StartsWith(Upper(word + rest), "SELECT")
  {
    var q := word + rest;
    assert w + word + rest == w + q;
    assert q[0] == word[0];
    assert LeadingSpace(q) == 0;
    assert TrimLeft(q) == q;
    LeadingWhitespaceIgnored(w, q);
    IsReadIgnoresTrailing(q);
  }

  /** A first word that upper-cases to SELECT letter by letter starts the
      upper-cased text with SELECT, whatever follows it. */
  lemma SelectWord(word: string, rest: string)
    requires |word| == 6 && forall i :: 0 <= i < 6 ==> UpperChar(word[i]) == "SELECT"[i]
    ensures StartsWith(Upper(word + rest), "SELECT")
  {
    var u := Upper(word + rest);
    forall i | 0 <= i < 6
      ensures u[i] == "SELECT"[i]
    {
      assert (word + rest)[i] == word[i];
    }
  }

  /** A lower-case `select` after any whitespace makes a read. */
  lemma LowerCaseSelectIsRead(w: string, rest: string)
    requires forall i :: 0 <= i < |w| ==> IsSpace(w[i])
    ensures IsRead(w + "select" + rest)
  {
    FirstWordDecides(w, "select", rest);
    assert UpperChar('s') == 'S' && UpperChar('e') == 'E' && UpperChar('l') == 'L';
    assert UpperChar('c') == 'C' && UpperChar('t') == 'T';
    SelectWord("select", rest);
  }

  /** A statement that begins with SELECT after any whitespace is a read. */
  lemma SelectIsRead(w: string, rest: string)
    requires forall i :: 0 <= i < |w| ==> IsSpace(w[i])
    ensures IsRead(w + "SELECT" + rest)
  {
    FirstWordDecides(w, "SELECT", rest);
    SelectWord("SELECT", rest);
  }

  /** A statement whose first non-blank character does not upper-case to `S`
      is a write, whatever follows; `WITH ... SELECT` is one. */
  lemma WriteUnlessS(w: string, word: string, rest: string)
    requires forall i :: 0 <= i < |w| ==> IsSpace(w[i])
    requires word != [] && !IsSpace(word[0]) && UpperChar(word[0]) != 'S'
    ensures !IsRead(w + word + rest)
  {
    FirstWordDecides(w, word, rest);
    assert Upper(word + rest)[0] == UpperChar(word[0]);
  }

  /** A statement starting with `WITH` is a write, even when it only reads. */
  lemma WithQueryIsWrite(rest: string)
    ensures !IsRead("WITH" + rest)
  {
    WriteUnlessS("", "WITH", rest);
    assert "" + "WITH" + rest == "WITH" + rest;
  }

  /** `params or ()`: leaving the parameters out is the same, call for call,
      as passing an empty tuple. */
  lemma NoneParamsLikeEmpty(c: Connector, query: string)
    ensures Execute(c, query, None) == Execute(c, query, Some([]))
  {
  }
}
