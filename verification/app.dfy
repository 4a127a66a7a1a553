/**
 The request handlers of the student-records web application: add, edit
 (GET and POST), delete, list and search. Each handler is a pure function
 from the request's inputs and the value `execute_query` returned to the
 response: the page rendered or the redirect, the flash message, and the
 statement handed to the gateway (if any). Statement and parameters never
 depend on the gateway's answer; the rest of the response depends only on
 its Python truthiness (and, for the edit form, on its first row).
 */
module App {
  import opened Wrappers
  import opened Email
  import opened Database
  import opened PyStr

  datatype Method = Get | Post

  datatype Category = Success | Error

  /** A flash message with its category. */
  datatype Flash = Flash(category: Category, message: string)

  /** Where the request ends. */
  datatype View =
    | RenderAddForm
    | RenderEditForm(student: Row)
    | RenderListing(students: QueryResult, searchTerm: Option<string>)
    | RedirectToListing
    | RedirectToEdit(id: nat)
      // Python raises when the edit handler indexes a truthy non-list result.
    | ServerError

  /** The statements the handlers issue. */
  datatype Kind = Insert | Update | SelectAll | SelectById | Delete | Search

  /** A statement as handed to `execute_query`: its text is `Sql(kind)`. */
  datatype Statement = Statement(kind: Kind, params: seq<Value>)

  datatype Response = Response(view: View, flash: Option<Flash>, statement: Option<Statement>)

  /** The fields of the add form, as submitted. */
  datatype AddSubmission = AddSubmission(
    studentId: string, name: string, email: string, phone: string, course: string, year: string)

  /** The fields of the edit form, as submitted. */
  datatype EditSubmission = EditSubmission(
    name: string, email: string, phone: string, course: string, year: string)

  const MissingFieldsMessage := "Please fill all required fields!"
  const InvalidEmailMessage := "Please enter a valid email address!"
  const AddedMessage := "Student added successfully!"
  const AddFailedMessage := "Error adding student. Student ID or Email might already exist."
  const UpdatedMessage := "Student updated successfully!"
  const UpdateFailedMessage := "Error updating student."
  const NotFoundMessage := "Student not found!"
  const DeletedMessage := "Student deleted successfully!"
  const DeleteFailedMessage := "Error deleting student."

  /** A line break and `n` spaces: how the triple-quoted statements begin. */
  function Indent(n: nat): (w: string)
    ensures forall i :: 0 <= i < |w| ==> IsSpace(w[i])
  {
    "\n" + seq(n, _ => ' ')
  }

  /** The text of each statement: leading whitespace, first word, and the
      rest (named below). */
  function Sql(k: Kind): string {
    match k
    case Insert => Indent(12) + "INSERT" + InsertRest
    case Update => Indent(12) + "UPDATE" + UpdateRest
    case SelectAll => "SELECT" + SelectAllRest
    case SelectById => "SELECT" + SelectByIdRest
    case Delete => "DELETE" + DeleteRest
    case Search => Indent(8) + "SELECT" + SearchRest
  }

  const InsertRest :=
    " INTO students (student_id, name, email, phone, course, year)\n            VALUES (%s, %s, %s, %s, %s, %s)\n        "
  const UpdateRest :=
    " students \n            SET name = %s, email = %s, phone = %s, course = %s, year = %s\n            WHERE id = %s\n        "
  const SelectAllRest := " * FROM students ORDER BY created_at DESC"
  const SelectByIdRest := " * FROM students WHERE id = %s"
  const DeleteRest := " FROM students WHERE id = %s"
  const SearchRest :=
    " * FROM students \n        WHERE name LIKE %s OR student_id LIKE %s OR email LIKE %s OR course LIKE %s\n        ORDER BY created_at DESC\n    "

  /** Columns named by the INSERT's placeholders, in order. */
  const InsertColumns: seq<string> := ["student_id", "name", "email", "phone", "course", "year"]
  /** Columns the UPDATE sets, in order; its last placeholder is the `id` key. */
  const UpdateColumns: seq<string> := ["name", "email", "phone", "course", "year"]
  /** Fields the add handler insists on. */
  const AddRequired: seq<string> := ["student_id", "name", "email", "course", "year"]
  /** Fields the edit handler insists on. */
  const EditRequired: seq<string> := ["name", "email", "course", "year"]

  /** `request.form[column]` on the add form. */
  function AddField(f: AddSubmission, column: string): Option<string> {
    match column
    case "student_id" => Some(f.studentId)
    case "name" => Some(f.name)
    case "email" => Some(f.email)
    case "phone" => Some(f.phone)
    case "course" => Some(f.course)
    case "year" => Some(f.year)
    case _ => None
  }

  /** `request.form[column]` on the edit form. */
  function EditField(f: EditSubmission, column: string): Option<string> {
    match column
    case "name" => Some(f.name)
    case "email" => Some(f.email)
    case "phone" => Some(f.phone)
    case "course" => Some(f.course)
    case "year" => Some(f.year)
    case _ => None
  }

  /** `all([student_id, name, email, course, year])`: every required string is non-empty. */
  predicate AddComplete(f: AddSubmission) {
    f.studentId != "" && f.name != "" && f.email != "" && f.course != "" && f.year != ""
  }

  /** `all([name, email, course, year])`. */
  predicate EditComplete(f: EditSubmission) {
    f.name != "" && f.email != "" && f.course != "" && f.year != ""
  }

  /** `add_student`. */
  function AddStudent(m: Method, f: AddSubmission, result: QueryResult): (r: Response)
    ensures m == Get ==> r == Response(RenderAddForm, None, None)
    // The field check comes first, then the email check; either stops the request.
    ensures m == Post && !AddComplete(f)
            ==> r == Response(RenderAddForm, Some(Flash(Error, MissingFieldsMessage)), None)
    ensures m == Post && AddComplete(f) && !ValidEmail(f.email)
            ==> r == Response(RenderAddForm, Some(Flash(Error, InvalidEmailMessage)), None)
    // An INSERT goes out exactly when both checks pass, with the fields in column order.
    ensures r.statement.Some? <==> m == Post && AddComplete(f) && ValidEmail(f.email)
    ensures r.statement.Some? ==> r.statement.value == Statement(Insert,
              [Text(f.studentId), Text(f.name), Text(f.email), Text(f.phone), Text(f.course), Text(f.year)])
    // After the INSERT: success and the listing iff the gateway's answer is truthy.
    ensures r.statement.Some? && Truthy(result)
            ==> r.view == RedirectToListing && r.flash == Some(Flash(Success, AddedMessage))
    ensures r.statement.Some? && !Truthy(result)
            ==> r.view == RenderAddForm && r.flash == Some(Flash(Error, AddFailedMessage))
  {
    if m.Get? then Response(RenderAddForm, None, None)
    else if !AddComplete(f) then Response(RenderAddForm, Some(Flash(Error, MissingFieldsMessage)), None)
    else if !ValidEmail(f.email) then Response(RenderAddForm, Some(Flash(Error, InvalidEmailMessage)), None)
    else
      var s := Statement(Insert,
        [Text(f.studentId), Text(f.name), Text(f.email), Text(f.phone), Text(f.course), Text(f.year)]);
      if Truthy(result) then Response(RedirectToListing, Some(Flash(Success, AddedMessage)), Some(s))
      else Response(RenderAddForm, Some(Flash(Error, AddFailedMessage)), Some(s))
  }

  /** `view_students`. */
  function ViewStudents(result: QueryResult): Response
  {
    Response(RenderListing(result, None), None, Some(Statement(SelectAll, [])))
  }

  /** `edit_student(student_id)`, for a GET and for a POST. */
  function EditStudent(m: Method, id: nat, f: EditSubmission, result: QueryResult): (r: Response)
    // GET: look the record up by its key; render its first row, or report it missing.
    ensures m == Get ==> r.statement == Some(Statement(SelectById, [Number(id)]))
    ensures m == Get && result.Rows? && |result.rows| > 0
            ==> r == Response(RenderEditForm(result.rows[0]), None, r.statement)
    ensures m == Get && !Truthy(result)
            ==> r.view == RedirectToListing && r.flash == Some(Flash(Error, NotFoundMessage))
    // `student[0]` on a truthy value that is not a list of rows raises.
    ensures m == Get && Truthy(result) && !result.Rows? ==> r == Response(ServerError, None, r.statement)
    // POST: a failed check sends the user back to the same record's edit page, with no UPDATE.
    ensures m == Post && !EditComplete(f)
            ==> r == Response(RedirectToEdit(id), Some(Flash(Error, MissingFieldsMessage)), None)
    ensures m == Post && EditComplete(f) && !ValidEmail(f.email)
            ==> r == Response(RedirectToEdit(id), Some(Flash(Error, InvalidEmailMessage)), None)
    ensures m == Post ==> (r.statement.Some? <==> EditComplete(f) && ValidEmail(f.email))
    ensures m == Post && r.statement.Some? ==> r.statement.value == Statement(Update,
              [Text(f.name), Text(f.email), Text(f.phone), Text(f.course), Text(f.year), Number(id)])
    // After the UPDATE the listing follows whatever the answer; only the flash depends on it.
    ensures m == Post && r.statement.Some?
            ==> && r.view == RedirectToListing
                && r.flash == (if Truthy(result) then Some(Flash(Success, UpdatedMessage))
                               else Some(Flash(Error, UpdateFailedMessage)))
  {
    if m.Post? then
      if !EditComplete(f) then Response(RedirectToEdit(id), Some(Flash(Error, MissingFieldsMessage)), None)
      else if !ValidEmail(f.email) then Response(RedirectToEdit(id), Some(Flash(Error, InvalidEmailMessage)), None)
      else
        var s := Statement(Update,
          [Text(f.name), Text(f.email), Text(f.phone), Text(f.course), Text(f.year), Number(id)]);
        var flash := if Truthy(result) then Flash(Success, UpdatedMessage) else Flash(Error, UpdateFailedMessage);
        Response(RedirectToListing, Some(flash), Some(s))
    else
      var s := Statement(SelectById, [Number(id)]);
      if Truthy(result) then
        match result
        case Rows(rows) => Response(RenderEditForm(rows[0]), None, Some(s))
        case _ => Response(ServerError, None, Some(s))
      else Response(RedirectToListing, Some(Flash(Error, NotFoundMessage)), Some(s))
  }

  /** `delete_student(student_id)`: no check of any kind before the DELETE. */
  function DeleteStudent(id: nat, result: QueryResult): (r: Response)
    ensures r.statement == Some(Statement(Delete, [Number(id)]))
    ensures r.view == RedirectToListing
    ensures r.flash.Some? && (r.flash.value.category == Success <==> Truthy(result))
    ensures r.flash.value.message == if Truthy(result) then DeletedMessage else DeleteFailedMessage
  {
    var flash := if Truthy(result) then Flash(Success, DeletedMessage) else Flash(Error, DeleteFailedMessage);
    Response(RedirectToListing, Some(flash), Some(Statement(Delete, [Number(id)])))
  }

  /** The LIKE pattern built from a search term: `f"%{term}%"`. */
  function SearchPattern(term: string): (p: string)
    ensures |p| == |term| + 2 && p[0] == '%' && p[|p| - 1] == '%' && p[1..|p| - 1] == term
  {
    "%" + term + "%"
  }

  /** `search_students`: `term` is the `search` query argument, if present. */
  function SearchStudents(term: Option<string>, result: QueryResult): (r: Response)
    ensures r.view == RenderListing(result, Some(term.GetOr("")))
    ensures r.flash.None?
    ensures r.statement.Some? && r.statement.value.kind == Search && |r.statement.value.params| == 4
    ensures forall k :: 0 <= k < 4 ==> r.statement.value.params[k] == Text(SearchPattern(term.GetOr("")))
  {
    var p := Text(SearchPattern(term.GetOr("")));
    Response(RenderListing(result, Some(term.GetOr(""))), None, Some(Statement(Search, [p, p, p, p])))
  }

  /** An add submission is turned away, with an error flash over the add
      form and no statement, exactly when some required field is empty or
      no prefix of the email matches the pattern; `phone` is not required. */
  lemma AddRejectedIff(f: AddSubmission, result: QueryResult)
    ensures var r := AddStudent(Post, f, result);
            r.statement.None?
            <==> (exists c :: c in AddRequired && AddField(f, c) == Some("")) || !PrefixMatches(f.email)
    ensures var r := AddStudent(Post, f, result);
            r.statement.None? ==> r.view == RenderAddForm && r.flash.Some? && r.flash.value.category == Error
    ensures "phone" !in AddRequired
  {
    ValidEmailIffPrefixMatches(f.email);
    if !AddComplete(f) {
      if f.studentId == "" { assert AddField(f, AddRequired[0]) == Some(""); }
      else if f.name == "" { assert AddField(f, AddRequired[1]) == Some(""); }
      else if f.email == "" { assert AddField(f, AddRequired[2]) == Some(""); }
      else if f.course == "" { assert AddField(f, AddRequired[3]) == Some(""); }
      else { assert AddField(f, AddRequired[4]) == Some(""); }
    }
  }

  /** Leaving `phone` empty never changes whether the INSERT goes out. */
  lemma PhoneMayBeEmpty(f: AddSubmission, result: QueryResult)
    ensures AddStudent(Post, f.(phone := ""), result).statement.Some?
            <==> AddStudent(Post, f, result).statement.Some?
    ensures AddStudent(Post, f.(phone := ""), result).statement.Some?
            ==> AddStudent(Post, f.(phone := ""), result).statement.value.params[3] == Text("")
  {
  }

  /** The INSERT's parameters are the submitted fields, placeholder by
      placeholder in the order its column list names them. */
  lemma InsertBindsColumns(f: AddSubmission, result: QueryResult)
    ensures var r := AddStudent(Post, f, result);
            r.statement.Some? ==>
              && |r.statement.value.params| == |InsertColumns|
              && forall i :: 0 <= i < |InsertColumns|
                   ==> AddField(f, InsertColumns[i]).Some?
                       && r.statement.value.params[i] == Text(AddField(f, InsertColumns[i]).value)
  {
  }

  /** An edit submission is sent back to the same record's edit page with an
      error flash and no statement exactly when a required field is empty or
      the email is rejected. */
  lemma EditRejectedIff(id: nat, f: EditSubmission, result: QueryResult)
    ensures var r := EditStudent(Post, id, f, result);
            r.statement.None?
            <==> (exists c :: c in EditRequired && EditField(f, c) == Some("")) || !PrefixMatches(f.email)
    ensures var r := EditStudent(Post, id, f, result);
            r.statement.None? ==> r.view == RedirectToEdit(id) && r.flash.Some? && r.flash.value.category == Error
  {
    ValidEmailIffPrefixMatches(f.email);
    if !EditComplete(f) {
      if f.name == "" { assert EditField(f, EditRequired[0]) == Some(""); }
      else if f.email == "" { assert EditField(f, EditRequired[1]) == Some(""); }
      else if f.course == "" { assert EditField(f, EditRequired[2]) == Some(""); }
      else { assert EditField(f, EditRequired[3]) == Some(""); }
    }
  }

  /** The UPDATE binds the submitted fields to the columns it sets, in order,
      and the route's `id` to its key; `student_id` is never among the
      columns it sets. */
  lemma UpdateBindsColumns(id: nat, f: EditSubmission, result: QueryResult)
    ensures var r := EditStudent(Post, id, f, result);
            r.statement.Some? ==>
              && |r.statement.value.params| == |UpdateColumns| + 1
              && (forall i :: 0 <= i < |UpdateColumns|
                   ==> EditField(f, UpdateColumns[i]).Some?
                       && r.statement.value.params[i] == Text(EditField(f, UpdateColumns[i]).value))
              && r.statement.value.params[|UpdateColumns|] == Number(id)
    ensures "student_id" !in UpdateColumns
  {
  }

  /** What the gateway answers to a statement. */
  function Serve(c: Connector, s: Statement): QueryResult {
    Execute(c, Sql(s.kind), Some(s.params)).result
  }

  /** The three SELECTs are the only statements the gateway treats as reads. */
  lemma Classification(k: Kind)
    ensures IsRead(Sql(k)) <==> k.SelectAll? || k.SelectById? || k.Search?
  {
    match k
    case SelectAll =>
      SelectIsRead("", SelectAllRest);
      assert "" + "SELECT" == "SELECT";
    case SelectById =>
      SelectIsRead("", SelectByIdRest);
      assert "" + "SELECT" == "SELECT";
    case Search => SelectIsRead(Indent(8), SearchRest);
    case Insert => WriteUnlessS(Indent(12), "INSERT", InsertRest);
    case Update => WriteUnlessS(Indent(12), "UPDATE", UpdateRest);
    case Delete =>
      WriteUnlessS("", "DELETE", DeleteRest);
      assert "" + "DELETE" == "DELETE";
  }

  /** Through the gateway, the edit page's lookup never reaches the branch
      that would index a non-list: a reachable record is rendered from the
      first fetched row, anything else is reported as not found. */
  lemma EditLookupThroughGateway(c: Connector, id: nat, f: EditSubmission)
    ensures var s := Statement(SelectById, [Number(id)]);
            var r := EditStudent(Get, id, f, Serve(c, s));
            && r.view != ServerError
            && (c.connects && c.raisesAt.None? && |c.rows| > 0 ==> r.view == RenderEditForm(c.rows[0]))
            && (r.view.RenderEditForm? || r.flash == Some(Flash(Error, NotFoundMessage)))
  {
    Classification(SelectById);
  }

  /** INSERT, UPDATE and DELETE are committed when the connector does not
      raise, and the handler then sees the cursor's `lastrowid`. */
  lemma WritesCommitThroughGateway(c: Connector, s: Statement)
    requires s.kind.Insert? || s.kind.Update? || s.kind.Delete?
    requires c.connects && c.raisesAt.None?
    ensures Committed in Execute(c, Sql(s.kind), Some(s.params)).events
    ensures Serve(c, s) == match c.lastRowId case Some(id) => RowId(id) case None => NoneResult
  {
    Classification(s.kind);
  }

  /** With no database connection, a submission that passes both checks is
      still refused: error flash and the add form again. */
  lemma AddWithoutConnection(c: Connector, f: AddSubmission)
    requires !c.connects
    requires AddComplete(f) && ValidEmail(f.email)
    ensures var s := AddStudent(Post, f, NoneResult).statement.value;
            AddStudent(Post, f, Serve(c, s)) == Response(RenderAddForm, Some(Flash(Error, AddFailedMessage)), Some(s))
  {
  }

  /** The listing shows what the gateway's SELECT returns: `None` when the
      database cannot be reached, the fetched rows on a healthy connector. */
  lemma ViewThroughGateway(c: Connector)
    ensures ViewStudents(Serve(c, Statement(SelectAll, []))).statement == Some(Statement(SelectAll, []))
    ensures !c.connects ==> ViewStudents(Serve(c, Statement(SelectAll, []))).view == RenderListing(NoneResult, None)
    ensures c.connects && c.raisesAt.None?
            ==> ViewStudents(Serve(c, Statement(SelectAll, []))).view == RenderListing(Rows(c.rows), None)
    ensures Serve(c, Statement(SelectAll, [])) == Execute(c, Sql(SelectAll), None).result
  {
    Classification(SelectAll);
    NoneParamsLikeEmpty(c, Sql(SelectAll));
  }

  /** A search without a `search` argument sends the pattern "%%" four times
      and shows an empty term. */
  lemma MissingSearchTerm(result: QueryResult)
    ensures SearchStudents(None, result).statement.value.params == [Text("%%"), Text("%%"), Text("%%"), Text("%%")]
    ensures SearchStudents(None, result).view.searchTerm == Some("")
  {
    assert SearchPattern("") == "%%";
  }
}
