/**
 * The creation validator `taskCreateSchema` (app/core/tasks/task.schema.ts):
 * two preprocess steps that coerce and trim the raw form values, a `min(1)`
 * check on the title, and a transform that turns an empty description into
 * an absent one. `SafeParse` is the schema's `safeParse` on the object
 * `{ title, description }`.
 */
module TaskSchema {
  import opened TaskTypes

  // ---------------------------------------------------------------------------
  // String.prototype.trim
  // ---------------------------------------------------------------------------

  /**
   * The code points ECMAScript's String.prototype.trim removes: WhiteSpace
   * (section 12.2 of ECMA-262: tab, vertical tab, form feed, space,
   * no-break space, zero width no-break space and every other Zs character)
   * and LineTerminator (section 12.3: LF, CR, LS, PS).
   */
  predicate IsWhitespace(c: char)
  {
    || c == '\t' || c == '\n' || c == '\U{000B}' || c == '\U{000C}' || c == '\r'
    || c == ' ' || c == '\U{00A0}' || c == '\U{1680}'
    || ('\U{2000}' <= c <= '\U{200A}')
    || c == '\U{2028}' || c == '\U{2029}' || c == '\U{202F}' || c == '\U{205F}'
    || c == '\U{3000}' || c == '\U{FEFF}'
  }

  predicate AllWhitespace(s: string)
  {
    forall i :: 0 <= i < |s| ==> IsWhitespace(s[i])
  }

  /** Neither the first nor the last character is whitespace. */
  predicate Trimmed(s: string)
  {
    s == [] || (!IsWhitespace(s[0]) && !IsWhitespace(s[|s| - 1]))
  }

  /** Drops the leading whitespace: what remains is a suffix of `s`. */
  function TrimStart(s: string): (r: string)
    ensures |r| <= |s| && r == s[|s| - |r|..]
    ensures forall i :: 0 <= i < |s| - |r| ==> IsWhitespace(s[i])
    ensures r == [] || !IsWhitespace(r[0])
  {
    if s != [] && IsWhitespace(s[0]) then TrimStart(s[1..]) else s
  }

  /** Drops the trailing whitespace: what remains is a prefix of `s`. */
  function TrimEnd(s: string): (r: string)
    ensures |r| <= |s| && r == s[..|r|]
    ensures forall i :: |r| <= i < |s| ==> IsWhitespace(s[i])
    ensures r == [] || !IsWhitespace(r[|r| - 1])
  {
    if s != [] && IsWhitespace(s[|s| - 1]) then TrimEnd(s[..|s| - 1]) else s
  }

  /** `s.trim()`. */
  function Trim(s: string): (r: string)
    ensures Trimmed(r)
    ensures |r| <= |s|
  {
    TrimEnd(TrimStart(s))
  }

  /**
   * `Trim(s)` is the middle `s[i..j]` of `s`, everything before `i` and
   * from `j` on being whitespace.
   */
  lemma TrimIsInfix(s: string) returns (i: nat, j: nat)
    ensures i <= j <= |s| && Trim(s) == s[i..j]
    ensures forall k :: 0 <= k < i ==> IsWhitespace(s[k])
    ensures forall k :: j <= k < |s| ==> IsWhitespace(s[k])
  {
    var u := TrimStart(s);
    var r := TrimEnd(u);
    i := |s| - |u|;
    j := i + |r|;
    assert u == s[i..];
    assert r == u[..|r|];
    assert r == s[i..j];
    forall k | j <= k < |s| ensures IsWhitespace(s[k]) {
      assert s[k] == u[k - i];
    }
  }

  /**
   * `Trim` is determined by that shape: whenever `s` is whitespace, then a
   * trimmed middle `m`, then whitespace, `Trim(s)` is `m`.
   */
  lemma TrimOfPadded(a: string, m: string, b: string)
    requires AllWhitespace(a) && AllWhitespace(b) && Trimmed(m)
    ensures Trim(a + m + b) == m
  {
    if m == [] {
      assert a + m + b == (a + b) + [];
      TrimStartOfPadded(a + b, []);
    } else {
      assert a + m + b == a + (m + b);
      assert (m + b)[0] == m[0];
      TrimStartOfPadded(a, m + b);
      TrimEndOfPadded(m, b);
    }
  }

  lemma {:induction false} TrimStartOfPadded(a: string, t: string)
    requires AllWhitespace(a)
    requires t == [] || !IsWhitespace(t[0])
    ensures TrimStart(a + t) == t
  {
    if a != [] {
      assert (a + t)[0] == a[0];
      assert (a + t)[1..] == a[1..] + t;
      TrimStartOfPadded(a[1..], t);
    } else {
      assert a + t == t;
    }
  }

  lemma {:induction false} TrimEndOfPadded(t: string, b: string)
    requires AllWhitespace(b)
    requires t == [] || !IsWhitespace(t[|t| - 1])
    ensures TrimEnd(t + b) == t
  {
    if b != [] {
      assert (t + b)[|t + b| - 1] == b[|b| - 1];
      assert (t + b)[..|t + b| - 1] == t + b[..|b| - 1];
      TrimEndOfPadded(t, b[..|b| - 1]);
    } else {
      assert t + b == t;
    }
  }

  /** Trimming twice is trimming once. */
  lemma TrimIdempotent(s: string)
    ensures Trim(Trim(s)) == Trim(s)
  {
  }

  /** The trim of `s` is empty exactly when `s` is whitespace only. */
  lemma TrimEmptyIffAllWhitespace(s: string)
    ensures Trim(s) == [] <==> AllWhitespace(s)
  {
  }

  // ---------------------------------------------------------------------------
  // The schema
  // ---------------------------------------------------------------------------

  /**
   * What `formData.get(name)` yields: a string, or something that is not a
   * string (`null` for a missing field, or an uploaded `File`).
   */
  datatype FormValue = Str(s: string) | NonString

  /** One element of a Zod issue path: an object key or an array index. */
  datatype PathElement = Key(name: string) | Index(index: int)

  datatype Issue = Issue(path: seq<PathElement>, message: string)

  /** The validated payload (`TaskCreateInput`, the port's `TaskInput`). */
  datatype TaskCreateInput = TaskCreateInput(title: string, description: Option<string>)

  /** The outcome of `safeParse`. */
  datatype SafeParseResult = Parsed(data: TaskCreateInput) | Invalid(issues: seq<Issue>)

  const TitleRequired: string := "El t\U{00ED}tulo es obligatorio"

  /** The issue the `min(1)` check on `title` reports. */
  const TitleIssue: Issue := Issue([Key("title")], TitleRequired)

  /** The preprocess step both fields share: non-strings become '', strings are trimmed. */
  function Coerce(v: FormValue): (r: string)
    ensures Trimmed(r)
    ensures v.Str? ==> |r| <= |v.s|
  {
    match v
    case Str(s) => Trim(s)
    case NonString => ""
  }

  /** `z.string().min(1, ...)` on the coerced title. */
  function TitleIssues(title: string): seq<Issue>
  {
    if |title| < 1 then [TitleIssue] else []
  }

  /**
   * `taskCreateSchema.safeParse({ title, description })`. The description's
   * schema `z.string().optional()` accepts every string, so only the title
   * can contribute an issue; the transform runs only when there is none.
   */
  function SafeParse(title: FormValue, description: FormValue): (r: SafeParseResult)
    ensures r.Invalid? ==> r.issues == [TitleIssue]
    ensures r.Parsed? ==> r.data.title != [] && Trimmed(r.data.title)
    ensures r.Parsed? && r.data.description.Some? ==>
      r.data.description.value != [] && Trimmed(r.data.description.value)
  {
    var t := Coerce(title);
    var d := Coerce(description);
    var issues := TitleIssues(t);
    if issues != [] then Invalid(issues)
    else Parsed(TaskCreateInput(t, if |d| > 0 then Some(d) else None))
  }

  /**
   * Validation fails exactly when the title is not a string or is
   * whitespace only, whatever the description.
   */
  lemma SafeParseFailsIffBlankTitle(title: FormValue, description: FormValue)
    ensures SafeParse(title, description).Invalid? <==>
      (title.NonString? || AllWhitespace(title.s))
  {
  }

  /** On success the title is the trimmed raw title string. */
  lemma SafeParseTitle(title: FormValue, description: FormValue)
    ensures var r := SafeParse(title, description);
      r.Parsed? ==> title.Str? && r.data.title == Trim(title.s)
  {
  }

  /**
   * On success the description is absent exactly when the raw description
   * is not a string or is whitespace only, and is otherwise its trim, of
   * any length; it is never ''.
   */
  lemma SafeParseDescription(title: FormValue, description: FormValue)
    ensures var r := SafeParse(title, description);
      r.Parsed? ==>
        && (r.data.description.None? <==> (description.NonString? || AllWhitespace(description.s)))
        && (r.data.description.Some? ==> description.Str? && r.data.description.value == Trim(description.s))
  {
    if description.Str? {
      TrimEmptyIffAllWhitespace(description.s);
    }
  }

  /** The form value a payload field would be submitted as again. */
  function Resubmitted(d: Option<string>): FormValue
  {
    match d
    case Some(s) => Str(s)
    case None => NonString
  }

  /** Feeding a validated payload back through the validator returns it unchanged. */
  lemma SafeParseIdempotent(title: FormValue, description: FormValue)
    ensures var r := SafeParse(title, description);
      r.Parsed? ==> SafeParse(Str(r.data.title), Resubmitted(r.data.description)) == r
  {
    if SafeParse(title, description).Parsed? {
      var p := SafeParse(title, description).data;
      var t, d := Coerce(title), Coerce(description);
      assert p == TaskCreateInput(t, if |d| > 0 then Some(d) else None);
      assert Coerce(Str(p.title)) == t by {
        TrimIdempotent(title.s);
      }
      assert Coerce(Resubmitted(p.description)) == d by {
        if description.Str? {
          TrimIdempotent(description.s);
        }
      }
    }
  }
}
