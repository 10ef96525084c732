/**
 * The server side of the tasks page (app/routes/tasks.tsx): `loader` lists
 * the tasks, and `action` validates a submitted form, reports field errors
 * or creates the task.
 */
module TasksRoute {
  import opened TaskTypes
  import opened TaskSchema
  import opened TasksRepository

  /** The two fields `action` reads with `formData.get`. */
  datatype FormData = FormData(title: FormValue, description: FormValue)

  /** `ActionData`: success, or the field-error record. */
  datatype ActionData = Success | Failure(fieldErrors: map<string, string>)

  /** The issue's first path element, when that element is a string key. */
  function FieldOf(issue: Issue): Option<string>
  {
    if |issue.path| > 0 && issue.path[0].Key? then Some(issue.path[0].name) else None
  }

  /** Issue `i` is the last of `issues[..n]` for field `k`. */
  ghost predicate LastFor(issues: seq<Issue>, n: nat, k: string, i: int)
    requires n <= |issues|
  {
    && 0 <= i < n
    && FieldOf(issues[i]) == Some(k)
    && forall j :: i < j < n ==> FieldOf(issues[j]) != Some(k)
  }

  /**
   * `fieldErrors` is what the loop makes of `issues`: a key for exactly the
   * fields some issue names, holding the last such issue's message.
   */
  ghost predicate Reports(issues: seq<Issue>, fieldErrors: map<string, string>)
  {
    && (forall k :: k in fieldErrors <==> exists i :: 0 <= i < |issues| && FieldOf(issues[i]) == Some(k))
    && (forall k :: k in fieldErrors ==>
          exists i :: LastFor(issues, |issues|, k, i) && fieldErrors[k] == issues[i].message)
  }

  /**
   * The `for` loop of `action` that folds the issues into `fieldErrors`,
   * assigning each message under its issue's first path element when that
   * element is a string; a later issue overwrites an earlier one.
   */
  method CollectFieldErrors(issues: seq<Issue>) returns (fieldErrors: map<string, string>)
    ensures Reports(issues, fieldErrors)
  {
    fieldErrors := map[];
    for n := 0 to |issues|
      invariant forall k :: k in fieldErrors <==> exists i :: 0 <= i < n && FieldOf(issues[i]) == Some(k)
      invariant forall k :: k in fieldErrors ==>
        exists i :: LastFor(issues, n, k, i) && fieldErrors[k] == issues[i].message
    {
      var path := FieldOf(issues[n]);
      if path.Some? {
        var previous := fieldErrors;
        fieldErrors := fieldErrors[path.value := issues[n].message];
        forall k | k in fieldErrors
          ensures exists i :: LastFor(issues, n + 1, k, i) && fieldErrors[k] == issues[i].message
        {
          if k == path.value {
            assert LastFor(issues, n + 1, k, n);
          } else {
            var i :| LastFor(issues, n, k, i) && previous[k] == issues[i].message;
            assert LastFor(issues, n + 1, k, i);
          }
        }
      } else {
        forall k | k in fieldErrors
          ensures exists i :: LastFor(issues, n + 1, k, i) && fieldErrors[k] == issues[i].message
        {
          var i :| LastFor(issues, n, k, i) && fieldErrors[k] == issues[i].message;
          assert LastFor(issues, n + 1, k, i);
        }
      }
    }
  }

  /** The issues determine the field-error record completely. */
  lemma ReportsIsFunctional(issues: seq<Issue>, a: map<string, string>, b: map<string, string>)
    requires Reports(issues, a) && Reports(issues, b)
    ensures a == b
  {
    assert a.Keys == b.Keys;
    forall k | k in a ensures a[k] == b[k] {
      var i :| LastFor(issues, |issues|, k, i) && a[k] == issues[i].message;
      var j :| LastFor(issues, |issues|, k, j) && b[k] == issues[j].message;
      assert !(i < j) && !(j < i);
    }
  }

  /**
   * With this validator, a rejected submission always reports exactly
   * `{ title: 'El título es obligatorio' }`.
   */
  lemma TitleOnlyFieldErrors(fieldErrors: map<string, string>)
    requires Reports([TitleIssue], fieldErrors)
    ensures fieldErrors == map["title" := TitleRequired]
  {
    var expected := map["title" := TitleRequired];
    assert FieldOf([TitleIssue][0]) == Some("title");
    assert LastFor([TitleIssue], 1, "title", 0);
    assert Reports([TitleIssue], expected);
    ReportsIsFunctional([TitleIssue], fieldErrors, expected);
  }

  /** Every stored title is non-empty and has no surrounding whitespace. */
  ghost predicate TitlesPresent(rows: seq<Row>)
  {
    forall i :: 0 <= i < |rows| ==> rows[i].title != [] && Trimmed(rows[i].title)
  }

  /** Inserting a validated payload's row keeps every stored title present. */
  lemma InsertKeepsTitles(rows: seq<Row>, input: TaskCreateInput, id: string, now: Timestamp)
    requires input.title != [] && Trimmed(input.title)
    ensures TitlesPresent(rows) ==> TitlesPresent(rows + [NewRow(input, id, now)])
  {
    var all := rows + [NewRow(input, id, now)];
    assert forall i :: 0 <= i < |rows| ==> all[i] == rows[i];
  }

  /** `loader`: the tasks exactly as `listAll` returns them. */
  method Loader(repo: SqliteTaskRepository) returns (tasks: seq<Task>)
    requires repo.Valid()
    ensures tasks == repo.ListAll()
    ensures NewestFirst(tasks) && |tasks| == |repo.tasks|
  {
    tasks := repo.ListAll();
  }

  /**
   * `action`: validate the form; on failure report the field errors and
   * leave the table alone (`create` is not called); on success call
   * `create` once with the validated payload, adding exactly its row.
   * `id` and `now` are the values `create` draws for that row.
   */
  method Action(repo: SqliteTaskRepository, form: FormData, id: string, now: Timestamp)
    returns (data: ActionData)
    requires repo.Valid()
    requires id !in repo.Ids()
    modifies repo
    ensures repo.Valid()
    ensures TitlesPresent(old(repo.tasks)) ==> TitlesPresent(repo.tasks)
    ensures var parsed := SafeParse(form.title, form.description);
      && (parsed.Invalid? ==>
            data == Failure(map["title" := TitleRequired]) && repo.tasks == old(repo.tasks))
      && (parsed.Parsed? ==>
            data == Success && repo.tasks == old(repo.tasks) + [NewRow(parsed.data, id, now)])
  {
    var parsed := SafeParse(form.title, form.description);
    if parsed.Invalid? {
      assert parsed.issues == [TitleIssue];
      var fieldErrors := CollectFieldErrors(parsed.issues);
      TitleOnlyFieldErrors(fieldErrors);
      return Failure(fieldErrors);
    }
    InsertKeepsTitles(repo.tasks, parsed.data, id, now);
    var _ := repo.Create(parsed.data, id, now);
    return Success;
  }
}
