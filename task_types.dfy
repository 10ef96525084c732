/**
 * The Task entity and its two enumerations, as declared in
 * app/core/tasks/tasks.types.ts.
 */
module TaskTypes {

  /** `undefined` / `null` versus a present value. */
  datatype Option<+T> = None | Some(value: T)

  /**
   * A value of the `created_at` / `updated_at` columns. SQLite's
   * CURRENT_TIMESTAMP writes fixed-width text 'YYYY-MM-DD HH:MM:SS', whose
   * text order is its chronological order; the model keeps only that order
   * and represents a timestamp by the instant it names.
   */
  type Timestamp = int

  datatype TaskStatus = Todo | InProgress | Done

  datatype TaskPriority = Low | Medium | High

  /** The text a status is stored as in the `status` column. */
  function StatusText(s: TaskStatus): string
  {
    match s
    case Todo => "todo"
    case InProgress => "in-progress"
    case Done => "done"
  }

  /** The text a priority is stored as in the `priority` column. */
  function PriorityText(p: TaskPriority): string
  {
    match p
    case Low => "low"
    case Medium => "medium"
    case High => "high"
  }

  predicate IsStatusText(text: string)
  {
    text == "todo" || text == "in-progress" || text == "done"
  }

  predicate IsPriorityText(text: string)
  {
    text == "low" || text == "medium" || text == "high"
  }

  /**
   * The `as Task['status']` cast: it reinterprets column text as a status,
   * which is sound only for one of the three texts.
   */
  function ParseStatus(text: string): (s: TaskStatus)
    requires IsStatusText(text)
    ensures StatusText(s) == text
  {
    if text == "todo" then Todo
    else if text == "in-progress" then InProgress
    else Done
  }

  /** The `as Task['priority']` cast. */
  function ParsePriority(text: string): (p: TaskPriority)
    requires IsPriorityText(text)
    ensures PriorityText(p) == text
  {
    if text == "low" then Low
    else if text == "medium" then Medium
    else High
  }

  /** Every status is stored as a text the cast accepts, and reads back as itself. */
  lemma StatusTextRoundTrip(s: TaskStatus)
    ensures IsStatusText(StatusText(s))
    ensures ParseStatus(StatusText(s)) == s
  {
  }

  /** Every priority is stored as a text the cast accepts, and reads back as itself. */
  lemma PriorityTextRoundTrip(p: TaskPriority)
    ensures IsPriorityText(PriorityText(p))
    ensures ParsePriority(PriorityText(p)) == p
  {
  }

  /**
   * A task as the application sees it. `description` is `undefined` when
   * absent; the repository never produces `null` for it.
   */
  datatype Task = Task(
    id: string,
    title: string,
    description: Option<string>,
    status: TaskStatus,
    priority: TaskPriority,
    createdAt: Timestamp,
    updatedAt: Timestamp)
}
