/** Translation of a validator's dotted field namespace (`Profile.Addresses[2].Zip`)
    into a `/`-joined pointer string, by walking the type of the validated root
    value, and the combined message of a validation error that carries one
    pointer per failed field.

    Go reflection is replaced by an explicit `Schema` value: the resolver only
    ever asks a type for its kind, the element of a pointer, a field by name,
    and that field's `json` tag and type. */
module JsonPtr {
  import opened GoStrings

  datatype Option<T> = None | Some(value: T)

  /** The shape of a Go type as far as the resolver can see it. `Slice` stands
      for slice and array kinds, whose element type the resolver never enters;
      `Other` for every remaining kind (maps, strings, numbers, ...). */
  datatype Schema =
    | Struct(fields: seq<Field>)
    | Ptr(elem: Schema)
    | Slice(elem: Schema)
    | Other

  /** A struct field: its Go name, the value of its `json` struct tag (the
      empty string when the field has no such tag) and its type. */
  datatype Field = Field(name: string, tag: string, typ: Schema)

  /** The two things the resolver and the report take from the validator's
      field error: its namespace and its own message, both opaque strings. */
  datatype FieldError = FieldError(namespace: string, message: string)

  /** One failed field with the pointer computed for it. */
  datatype ValidationDetail = ValidationDetail(jsonPointer: string, fieldError: FieldError)

  /** The aggregated error: the message of the error the validator itself
      returned, if any, and one detail per failed field, in the validator's order. */
  datatype JSONPtrValidationError =
    JSONPtrValidationError(validatorError: Option<string>, errors: seq<ValidationDetail>)

  // ---------------------------------------------------------------------------
  // Type queries
  // ---------------------------------------------------------------------------

  /** The cursor after the resolver's single pointer dereference. */
  function Deref(t: Schema): Schema
  {
    if t.Ptr? then t.elem else t
  }

  /** `FieldByName` on a struct type, as the index of the first field with
      that name, or None when no field has it. */
  function FindField(fields: seq<Field>, name: string): (r: Option<nat>)
    ensures r.Some? ==> r.value < |fields| && fields[r.value].name == name
  {
    if |fields| == 0 then None
    else if fields[0].name == name then Some(0)
    else match FindField(fields[1..], name)
      case None => None
      case Some(i) => Some(i + 1)
  }

  /** FindField finds the first field of that name, and finds none exactly
      when no field has the name. */
  lemma {:induction false} FindFieldFirst(fields: seq<Field>, name: string)
    ensures var r := FindField(fields, name);
      (r.Some? ==> forall j :: 0 <= j < r.value ==> fields[j].name != name) &&
      (r.None? <==> forall j :: 0 <= j < |fields| ==> fields[j].name != name)
  {
    if |fields| > 0 && fields[0].name != name {
      FindFieldFirst(fields[1..], name);
      assert forall j :: 1 <= j < |fields| ==> fields[j] == fields[1..][j - 1];
    }
  }

  /** The field `FieldByName` finds, if any. */
  function Lookup(fields: seq<Field>, name: string): Option<Field>
  {
    match FindField(fields, name)
    case None => None
    case Some(i) => Some(fields[i])
  }

  /** A `json:"-"` tag hides the field from every pointer. */
  predicate Hidden(f: Field)
  {
    f.tag == "-"
  }

  /** The pointer segment of a field: the tag's text before its first comma,
      or the field's own name when that text is empty (no tag, or a tag such
      as `,omitempty` that only sets options). */
  function ExposedName(f: Field): string
  {
    var jsonFieldName := Before(f.tag, ',');
    if jsonFieldName == "" then f.name else jsonFieldName
  }

  /** A tag that starts with a name gives that name, which is the whole tag
      up to its first comma; a tag that is empty or starts with a comma gives
      the field's own name. */
  lemma ExposedNameShape(f: Field)
    ensures (f.tag == "" || f.tag[0] == ',') ==> ExposedName(f) == f.name
    ensures !(f.tag == "" || f.tag[0] == ',') ==>
              var r := ExposedName(f);
              r != "" && ',' !in r && |r| <= |f.tag| && f.tag[..|r|] == r && (|r| == |f.tag| || f.tag[|r|] == ',')
  {
  }

  /** A namespace segment cut into its field name and its index suffix: the
      name is the text before the first `[`; the suffix is `[` followed by the
      text up to the second `[`, and empty when the segment has no `[`. */
  function SplitIndex(segment: string): (string, string)
  {
    if '[' in segment then
      var parts := Split(segment, '[');
      (parts[0], "[" + parts[1])
    else
      (segment, "")
  }

  /** The name holds no `[`; the suffix is empty exactly when the segment has
      no `[`, and otherwise is one `[` and the text after it up to the next
      `[` or the end; name and suffix together are a prefix of the segment,
      followed by nothing or by a `[` (so `a[1][2]` gives `a` and `[1]`, and
      `[2]` is lost). */
  lemma SplitIndexShape(segment: string)
    ensures var (name, suffix) := SplitIndex(segment);
      '[' !in name &&
      (suffix != "" <==> '[' in segment) &&
      (suffix != "" ==> suffix[0] == '[' && '[' !in suffix[1..]) &&
      |name| + |suffix| <= |segment| && segment[..|name| + |suffix|] == name + suffix &&
      (|name| + |suffix| == |segment| || segment[|name| + |suffix|] == '[')
  {
    if '[' in segment {
      var k := IndexOf(segment, '[');
      var t := segment[k + 1..];
      var b := Before(t, '[');
      assert Split(segment, '[') == [segment[..k]] + Split(t, '[');
      BeforeShape(t, '[');
      SliceAround(segment, k, |b|);
      assert ("[" + b)[1..] == b;
    }
  }

  // ---------------------------------------------------------------------------
  // Pointer resolution
  // ---------------------------------------------------------------------------

  /** The pointer segments that `fields` resolve to from cursor type `cur`:
      dereference one pointer; stop with nothing if the cursor is then not a
      struct; for an unknown field append its raw name and suffix and stop;
      for a hidden field stop; otherwise append the exposed name and suffix
      and continue from the field's type. Each step appends at most one
      segment, so there are never more segments than namespace parts. */
  function Resolve(cur: Schema, fields: seq<string>): (r: seq<string>)
    ensures |r| <= |fields|
    decreases |fields|
  {
    if fields == [] then []
    else
      var current := Deref(cur);
      if !current.Struct? then []
      else
        var (field, arrayIndex) := SplitIndex(fields[0]);
        match Lookup(current.fields, field)
        case None => [field + arrayIndex]
        case Some(sf) =>
          if Hidden(sf) then []
          else [ExposedName(sf) + arrayIndex] + Resolve(sf.typ, fields[1..])
  }

  /** The pointer string: a `/` followed by the segments joined with `/`. */
  function Pointer(segments: seq<string>): (p: string)
    ensures |p| >= 1 && p[0] == '/'
    ensures segments == [] ==> p == "/"
  {
    "/" + Join(segments, "/")
  }

  /** The four ways one resolution step can go: a cursor that is no struct,
      an unknown field, a hidden field, or a visible field whose segment is
      added before resolving the remaining parts. */
  lemma ResolveFirst(cur: Schema, fields: seq<string>)
    requires fields != []
    ensures var current, (field, arrayIndex) := Deref(cur), SplitIndex(fields[0]);
      (!current.Struct? ==> Resolve(cur, fields) == []) &&
      (current.Struct? && FindField(current.fields, field).None? ==>
         Resolve(cur, fields) == [field + arrayIndex]) &&
      (current.Struct? && FindField(current.fields, field).Some? ==>
         var sf := current.fields[FindField(current.fields, field).value];
         (Hidden(sf) ==> Resolve(cur, fields) == []) &&
         (!Hidden(sf) ==> Resolve(cur, fields) == [ExposedName(sf) + arrayIndex] + Resolve(sf.typ, fields[1..])))
  {
  }

  /** `ResolveJSONPtr(root, fe)`: split the namespace on `.`, walk the root
      type with the parts to collect the pointer segments, and prefix their
      `/`-join with a `/`. */
  method ResolveJSONPtr(root: Schema, fe: FieldError) returns (ptr: string)
    ensures ptr == Pointer(Resolve(root, Split(fe.namespace, '.')))
  {
    var fields := Split(fe.namespace, '.');
    var jsonPath := BuildJSONPath(root, fields);
    ptr := "/" + Join(jsonPath, "/");
  }

  /** The loop of `ResolveJSONPtr`: one iteration per namespace part, each
      dereferencing one pointer, leaving on a non-struct cursor, an unknown
      field or a hidden field, and otherwise appending the field's segment
      and moving the cursor to the field's type. */
  method BuildJSONPath(root: Schema, fields: seq<string>) returns (jsonPath: seq<string>)
    ensures jsonPath == Resolve(root, fields)
  {
    jsonPath := [];
    var current := root;
    var i := 0;
    while i < |fields|
      invariant 0 <= i <= |fields|
      invariant jsonPath + Resolve(current, fields[i..]) == Resolve(root, fields)
    {
      ghost var rest := fields[i..];
      ResolveFirst(current, rest);
      assert rest[0] == fields[i] && rest[1..] == fields[i + 1..];
      if current.Ptr? {
        current := current.elem;
      }
      if !current.Struct? {
        break;
      }
      var (field, arrayIndex) := SplitIndex(fields[i]);
      var found := FindField(current.fields, field);
      if found.None? {
        jsonPath := jsonPath + [field + arrayIndex];
        break;
      }
      var sf := current.fields[found.value];
      if Hidden(sf) {
        break;
      }
      AppendAssoc(jsonPath, [ExposedName(sf) + arrayIndex], Resolve(sf.typ, fields[i + 1..]));
      jsonPath := jsonPath + [ExposedName(sf) + arrayIndex];
      current := sf.typ;
      i := i + 1;
    }
  }

  // ---------------------------------------------------------------------------
  // Properties of resolution
  // ---------------------------------------------------------------------------

  /** `fs` are the fields that the namespace parts `parts` name one after the
      other, walking from `cur`: each cursor is a struct after one
      dereference, the part's name is found in it as that field, the field is
      not hidden, and the walk goes on from the field's type. */
  predicate Follows(cur: Schema, parts: seq<string>, fs: seq<Field>)
    decreases |parts|
  {
    |fs| == |parts| &&
    (parts != [] ==>
      Deref(cur).Struct? &&
      Lookup(Deref(cur).fields, SplitIndex(parts[0]).0) == Some(fs[0]) &&
      !Hidden(fs[0]) &&
      Follows(fs[0].typ, parts[1..], fs[1..]))
  }

  /** The cursor type a followed walk arrives at: the last field's type, or
      the starting type when no field was crossed. */
  function Arrival(cur: Schema, fs: seq<Field>): Schema
  {
    if fs == [] then cur else fs[|fs| - 1].typ
  }

  /** One resolution step through a visible field of a struct cursor: its
      exposed name and index suffix become the next segment and resolution
      goes on from the field's type. */
  lemma ResolveStep(cur: Schema, part: string, f: Field, rest: seq<string>)
    requires Deref(cur).Struct?
    requires Lookup(Deref(cur).fields, SplitIndex(part).0) == Some(f) && !Hidden(f)
    ensures Resolve(cur, [part] + rest) == [ExposedName(f) + SplitIndex(part).1] + Resolve(f.typ, rest)
  {
  }

  /** Resolution of a followed path goes on, after its last part, from the
      type the walk arrived at: the prefix contributes its own segments and
      the rest is resolved from there. */
  lemma {:induction false} ResolveAfterFollowed(cur: Schema, parts: seq<string>, fs: seq<Field>, rest: seq<string>)
    requires Follows(cur, parts, fs)
    ensures Resolve(cur, parts + rest) == Resolve(cur, parts) + Resolve(Arrival(cur, fs), rest)
    decreases |parts|
  {
    if parts == [] {
      assert parts + rest == rest;
    } else {
      var tail, f := parts[1..], fs[0];
      var seg := ExposedName(f) + SplitIndex(parts[0]).1;
      assert Resolve(cur, parts + rest) == [seg] + Resolve(f.typ, tail + rest) by {
        assert parts + rest == [parts[0]] + (tail + rest);
        ResolveStep(cur, parts[0], f, tail + rest);
      }
      assert Resolve(cur, parts) == [seg] + Resolve(f.typ, tail) by {
        assert parts == [parts[0]] + tail;
        ResolveStep(cur, parts[0], f, tail);
      }
      assert Resolve(f.typ, tail + rest) == Resolve(f.typ, tail) + Resolve(Arrival(cur, fs), rest) by {
        ResolveAfterFollowed(f.typ, tail, fs[1..], rest);
        assert Arrival(f.typ, fs[1..]) == Arrival(cur, fs);
      }
      AppendAssoc([seg], Resolve(f.typ, tail), Resolve(Arrival(cur, fs), rest));
    }
  }

  /** Concatenation of sequences is associative. */
  lemma AppendAssoc<T>(a: seq<T>, b: seq<T>, c: seq<T>)
    ensures a + (b + c) == (a + b) + c
  {
  }

  /** A followed path extended by one more part that names a visible field of
      the struct cursor it arrived at is still followed. */
  lemma {:induction false} FollowsExtend(cur: Schema, parts: seq<string>, fs: seq<Field>, part: string, f: Field)
    requires Follows(cur, parts, fs)
    requires Deref(Arrival(cur, fs)).Struct?
    requires Lookup(Deref(Arrival(cur, fs)).fields, SplitIndex(part).0) == Some(f) && !Hidden(f)
    ensures Follows(cur, parts + [part], fs + [f])
    decreases |parts|
  {
    if parts == [] {
      assert [part][1..] == [] && [f][1..] == [];
    } else {
      assert Arrival(fs[0].typ, fs[1..]) == Arrival(cur, fs);
      FollowsExtend(fs[0].typ, parts[1..], fs[1..], part, f);
      assert (parts + [part])[1..] == parts[1..] + [part];
      assert (fs + [f])[1..] == fs[1..] + [f];
    }
  }

  /** When every namespace part names a visible field of a struct cursor, the
      pointer has exactly one segment per part, in namespace order: the
      field's exposed name followed by the part's index suffix. */
  lemma {:induction false} FollowedResolves(cur: Schema, parts: seq<string>, fs: seq<Field>)
    requires Follows(cur, parts, fs)
    ensures |Resolve(cur, parts)| == |parts|
    ensures forall k :: 0 <= k < |parts| ==>
              Resolve(cur, parts)[k] == ExposedName(fs[k]) + SplitIndex(parts[k]).1
    decreases |parts|
  {
    if parts != [] {
      var r, inner := Resolve(cur, parts), Resolve(fs[0].typ, parts[1..]);
      assert r == [ExposedName(fs[0]) + SplitIndex(parts[0]).1] + inner by {
        assert parts == [parts[0]] + parts[1..];
        ResolveStep(cur, parts[0], fs[0], parts[1..]);
      }
      assert |inner| == |parts| - 1 by {
        FollowedResolves(fs[0].typ, parts[1..], fs[1..]);
      }
      forall k | 1 <= k < |parts|
        ensures r[k] == ExposedName(fs[k]) + SplitIndex(parts[k]).1
      {
        FollowedResolves(fs[0].typ, parts[1..], fs[1..]);
        assert parts[1..][k - 1] == parts[k] && fs[1..][k - 1] == fs[k];
      }
    }
  }

  /** A part naming a field tagged `json:"-"` ends resolution: nothing is
      added for it or for any later part. */
  lemma HiddenFieldStops(root: Schema, parts: seq<string>, fs: seq<Field>, part: string, f: Field, rest: seq<string>)
    requires Follows(root, parts, fs)
    requires Deref(Arrival(root, fs)).Struct?
    requires Lookup(Deref(Arrival(root, fs)).fields, SplitIndex(part).0) == Some(f) && Hidden(f)
    ensures Resolve(root, parts + [part] + rest) == Resolve(root, parts)
  {
    assert parts + [part] + rest == parts + ([part] + rest);
    ResolveAfterFollowed(root, parts, fs, [part] + rest);
    assert ([part] + rest)[0] == part;
  }

  /** A part naming no field of the struct cursor contributes its raw name and
      index suffix as the last segment: later parts are not resolved. */
  lemma UnknownFieldStops(root: Schema, parts: seq<string>, fs: seq<Field>, part: string, rest: seq<string>)
    requires Follows(root, parts, fs)
    requires Deref(Arrival(root, fs)).Struct?
    requires Lookup(Deref(Arrival(root, fs)).fields, SplitIndex(part).0).None?
    ensures Resolve(root, parts + [part] + rest) == Resolve(root, parts) + [SplitIndex(part).0 + SplitIndex(part).1]
  {
    assert parts + [part] + rest == parts + ([part] + rest);
    ResolveAfterFollowed(root, parts, fs, [part] + rest);
    assert ([part] + rest)[0] == part;
  }

  /** A cursor that is not a struct after one dereference (a slice, a map, a
      basic type, a pointer to a pointer) ends resolution with nothing added
      for the current part or any later one. */
  lemma NonStructStops(root: Schema, parts: seq<string>, fs: seq<Field>, part: string, rest: seq<string>)
    requires Follows(root, parts, fs)
    requires !Deref(Arrival(root, fs)).Struct?
    ensures Resolve(root, parts + [part] + rest) == Resolve(root, parts)
  {
    assert parts + [part] + rest == parts + ([part] + rest);
    ResolveAfterFollowed(root, parts, fs, [part] + rest);
  }

  /** A part naming a visible field of the struct cursor adds exactly one
      segment, the field's exposed name followed by the part's index suffix. */
  lemma VisibleFieldAppends(root: Schema, parts: seq<string>, fs: seq<Field>, part: string, f: Field)
    requires Follows(root, parts, fs)
    requires Deref(Arrival(root, fs)).Struct?
    requires Lookup(Deref(Arrival(root, fs)).fields, SplitIndex(part).0) == Some(f) && !Hidden(f)
    ensures Resolve(root, parts + [part]) == Resolve(root, parts) + [ExposedName(f) + SplitIndex(part).1]
  {
    ResolveAfterFollowed(root, parts, fs, [part]);
    ResolveStep(Arrival(root, fs), part, f, []);
    assert [part] + [] == [part];
  }

  /** The resolver does not enter slice element types: after a visible field
      of slice type (say `Addresses[2]`), that field's segment with its index
      suffix is the last one, whatever parts follow. */
  lemma SliceFieldEndsPath(root: Schema, parts: seq<string>, fs: seq<Field>, part: string, f: Field, next: string, rest: seq<string>)
    requires Follows(root, parts, fs)
    requires Deref(Arrival(root, fs)).Struct?
    requires Lookup(Deref(Arrival(root, fs)).fields, SplitIndex(part).0) == Some(f)
    requires !Hidden(f) && f.typ.Slice?
    ensures Resolve(root, parts + [part, next] + rest) == Resolve(root, parts) + [ExposedName(f) + SplitIndex(part).1]
  {
    FollowsExtend(root, parts, fs, part, f);
    VisibleFieldAppends(root, parts, fs, part, f);
    assert Arrival(root, fs + [f]) == f.typ;
    NonStructStops(root, parts + [part], fs + [f], next, rest);
    assert parts + [part, next] + rest == parts + [part] + [next] + rest;
  }

  /** Every pointer built from at least one segment free of `/` splits back,
      after its leading `/`, into exactly those segments. Resolved segments
      may hold `/` (from a tag or a raw part), and `/` alone is the pointer of
      both `[]` and `[""]`, so in general the pointer does not determine the
      segments. */
  lemma PointerSegments(segments: seq<string>)
    requires |segments| >= 1
    requires forall i :: 0 <= i < |segments| ==> '/' !in segments[i]
    ensures Split(Pointer(segments)[1..], '/') == segments
  {
    assert Pointer(segments)[1..] == Join(segments, "/");
    SplitJoin(segments, '/');
  }

  // ---------------------------------------------------------------------------
  // The combined error message
  // ---------------------------------------------------------------------------

  /** The text of one detail's line, without its line break: the fixed
      `Error at '%s': %s` format filled with the pointer and the field error's
      own message. */
  function LineText(d: ValidationDetail): string
  {
    "Error at '" + d.jsonPointer + "': " + d.fieldError.message
  }

  /** One detail's line of the combined message: its text and a line break. */
  function Line(d: ValidationDetail): string
  {
    LineText(d) + "\n"
  }

  /** The combined message: one newline-terminated line per detail, in order. */
  function Message(details: seq<ValidationDetail>): (m: string)
    ensures m == "" <==> details == []
  {
    if details == [] then "" else Line(details[0]) + Message(details[1..])
  }

  /** Adding a detail at the end adds its line at the end of the message. */
  lemma {:induction false} MessageAppend(details: seq<ValidationDetail>, d: ValidationDetail)
    ensures Message(details + [d]) == Message(details) + Line(d)
  {
    if details == [] {
      assert [d][1..] == [];
    } else {
      var head, tail := Line(details[0]), details[1..];
      assert (details + [d])[1..] == tail + [d];
      MessageAppend(tail, d);
      assert head + (Message(tail) + Line(d)) == (head + Message(tail)) + Line(d);
    }
  }

  /** The line texts of the details, in order. */
  function LineTexts(details: seq<ValidationDetail>): seq<string>
  {
    seq(|details|, i requires 0 <= i < |details| => LineText(details[i]))
  }

  /** The message is the details' line texts, each followed by a line break. */
  lemma {:induction false} MessageIsJoin(details: seq<ValidationDetail>)
    ensures Message(details) == Join(LineTexts(details) + [""], "\n")
  {
    if details != [] {
      MessageIsJoin(details[1..]);
      assert LineTexts(details) + [""] == [LineText(details[0])] + (LineTexts(details[1..]) + [""]);
      JoinHead(LineTexts(details) + [""], "\n");
    }
  }

  /** With single-line pointers and messages, neither a line text nor the
      empty remainder after the last line break holds a line break. */
  lemma LinesSingleLine(details: seq<ValidationDetail>)
    requires forall i :: 0 <= i < |details| ==>
               '\n' !in details[i].jsonPointer && '\n' !in details[i].fieldError.message
    ensures forall i :: 0 <= i < |LineTexts(details) + [""]| ==> '\n' !in (LineTexts(details) + [""])[i]
  {
  }

  /** When no pointer or field message holds a line break, splitting the
      message at line breaks gives back one line per detail, in the details'
      order, and an empty remainder after the final line break. */
  lemma MessageLines(details: seq<ValidationDetail>)
    requires forall i :: 0 <= i < |details| ==>
               '\n' !in details[i].jsonPointer && '\n' !in details[i].fieldError.message
    ensures Split(Message(details), '\n') == LineTexts(details) + [""]
  {
    MessageIsJoin(details);
    LinesSingleLine(details);
    SplitJoin(LineTexts(details) + [""], '\n');
  }

  /** `(*JSONPtrValidationError).Error()`: write each detail's line into a
      builder, in order. */
  method Error(e: JSONPtrValidationError) returns (s: string)
    ensures s == Message(e.errors)
  {
    var sb := "";
    var i := 0;
    while i < |e.errors|
      invariant 0 <= i <= |e.errors|
      invariant sb == Message(e.errors[..i])
    {
      var detail := e.errors[i];
      MessageAppend(e.errors[..i], detail);
      assert e.errors[..i + 1] == e.errors[..i] + [detail];
      sb := sb + Line(detail);
      i := i + 1;
    }
    assert e.errors[..i] == e.errors;
    s := sb;
  }
}
