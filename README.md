# jsonptr4validator in Dafny

This project models the core of `jsonptr4validator`. The library turns a
go-playground validator failure into a JSON-Pointer-like path, and it
combines the failures into one error message.

- **`ResolveJSONPtr(root, fe)`** splits the field error's dotted namespace
  (`Profile.Addresses[2].Zip`) on `.`. It then walks the type of the root
  value one part at a time:
  - it dereferences at most one pointer per part;
  - it stops when the cursor is not a struct;
  - it looks the part's name up as a struct field;
  - it stops at a field tagged `json:"-"`;
  - it writes the field's `json` name (or its Go name), followed by the
    part's `[...]` index suffix;
  - it moves the cursor to the field's type.

  A part that names no field is written raw, and the walk ends there. The
  segments are joined with `/` behind a leading `/`.
- **`(*JSONPtrValidationError).Error()`** writes one line
  `Error at '<pointer>': <message>` per detail into a string builder, in
  order, each line ended by a line break.

Go reflection is replaced by an explicit `Schema` value:
`Struct(fields) | Ptr(elem) | Slice(elem) | Other`. Each field is
`Field(name, tag, typ)`, where `tag` is the value of the `json` struct tag.
Both operations are imperative in Go, and each becomes a Dafny method with a
`while` loop:

- `JsonPtr.BuildJSONPath` and `JsonPtr.ResolveJSONPtr` are proved equal to
  the recursive function `JsonPtr.Resolve`, wrapped by `JsonPtr.Pointer`;
- `JsonPtr.Error` is proved equal to the recursive function `JsonPtr.Message`.

The properties are then proved about these functions. The parts of Go's
`strings` package that the code relies on (`Split`, `Join`, and
`Split(s, sep)[0]`) are modelled in module `GoStrings`, together with their
round-trip lemmas.

The model follows the code. Consequences of the code that a reader may not
expect:

- A cursor that is not a struct after one dereference (a slice, a map, a
  basic type, a pointer to a pointer) ends the walk with nothing appended.
  The raw segment is not passed through.
- Slice element types are never entered. So `Addresses[2].Zip` over a slice
  of structs gives `/addresses[2]`, not `/addresses[2]/zip_code`.
- An unknown part contributes only itself. `Unknown.Field` gives `/Unknown`.
- The index suffix is `"["` followed by the text between the first and the
  second `[`. For `a[1][2]` the suffix is `[1]` and `[2]` is lost.
- Index suffixes stay attached to their segment (`addresses[2]`). No
  `~0`/`~1` escaping from section 3 of RFC 6901 is applied.

## Model

| member | source | states |
|---|---|---|
| JsonPtr.ResolveJSONPtr | jsonptr.go:34-84 | the returned pointer is the `Pointer` of the segments `Resolve` gives for the namespace split on `.` |
| JsonPtr.BuildJSONPath | jsonptr.go:38-80 | the loop over the namespace parts collects exactly the segments `Resolve` gives from the root type |
| JsonPtr.Resolve | jsonptr.go:41-80 | never more pointer segments than namespace parts: each iteration appends at most one |
| JsonPtr.Pointer | jsonptr.go:83 | the pointer always begins with `/`, and no segments give exactly `/` |
| JsonPtr.PointerSegments | jsonptr.go:83 | for at least one segment, none holding `/`, splitting the pointer after its leading `/` gives back exactly those segments; `/` itself is the pointer of both no segments and a single empty segment (an empty namespace over a struct root), so it alone is ambiguous |
| JsonPtr.FindField | jsonptr.go:59 | a found field index is in range and names a field with the looked-up name |
| JsonPtr.FindFieldFirst | jsonptr.go:59-60 | the lookup finds the first field of that name, and reports none exactly when no field has the name |
| JsonPtr.SplitIndexShape | jsonptr.go:50-56 | the field name holds no `[`; the suffix is empty exactly when the segment holds no `[`; otherwise the suffix is `[` plus the text up to the next `[` or the end, so name and suffix are a prefix of the segment |
| JsonPtr.ExposedNameShape | jsonptr.go:72-76 | an empty tag, or one that starts with a comma, gives the Go field name; otherwise the name is the tag's non-empty, comma-free text up to its first comma or its end |
| JsonPtr.ResolveAfterFollowed | jsonptr.go:41-80 | after a path of visible fields, the remaining parts are resolved from the type the walk arrived at, and their segments follow the path's own |
| JsonPtr.FollowsExtend | jsonptr.go:58-79 | a walk through visible fields extended by one more visible field of the arrived-at struct is still a walk through visible fields |
| JsonPtr.FollowedResolves | jsonptr.go:41-83 | when every part names a visible field of a struct cursor, there is one segment per part, in namespace order, each the field's exposed name followed by the part's index suffix |
| JsonPtr.VisibleFieldAppends | jsonptr.go:58-79 | a part naming a visible field after a followed path appends exactly that field's segment |
| JsonPtr.HiddenFieldStops | jsonptr.go:66-70 | a part naming a field tagged `-` stops resolution: nothing is appended for it or for any later part |
| JsonPtr.UnknownFieldStops | jsonptr.go:58-64 | a part naming no field appends its raw name and index suffix as the last segment; later parts are not resolved |
| JsonPtr.NonStructStops | jsonptr.go:42-48 | a cursor that is not a struct after one dereference stops resolution with nothing appended for this or later parts |
| JsonPtr.SliceFieldEndsPath | jsonptr.go:42-79 | after a visible slice-typed field, that field's segment is the last one whatever parts follow, because the element type is never entered |
| JsonPtr.Error | jsonptr.go:23-29 | the builder loop returns exactly the combined message of the details, in list order |
| JsonPtr.Message | jsonptr.go:24-28 | the message is empty exactly when there are no details |
| JsonPtr.MessageAppend | jsonptr.go:25-27 | one more detail adds its line, with its line break, at the end of the message |
| JsonPtr.MessageIsJoin | jsonptr.go:24-28 | the message is the details' line texts joined by line breaks, with a final line break |
| JsonPtr.MessageLines | jsonptr.go:24-28 | when no pointer or field message holds a line break, splitting the message at line breaks gives back one `Error at '…': …` text per detail, in order, then an empty remainder |
| GoStrings.IndexOf | jsonptr.go:53 | the first-occurrence search behind every `strings.Split` of the code (lines 36, 53 and 73): the position returned holds the character, and no earlier position does |
| GoStrings.Split | jsonptr.go:36 | a split always has at least one piece, and has a second piece exactly when the string holds the separator |
| GoStrings.SplitPiecesFree | jsonptr.go:36 | no piece of a split holds the separator |
| GoStrings.JoinSplit | jsonptr.go:36 | joining the pieces of a split with the separator gives back the original string |
| GoStrings.SplitJoin | jsonptr.go:36 | splitting the join of at least one separator-free piece gives back exactly those pieces (no pieces join to the empty string, which splits into one empty piece) |
| GoStrings.BeforeShape | jsonptr.go:73 | the text before the first separator holds no separator, is a prefix of the string, and is followed by the separator or by the end |

## Left out

- `JSONPtrValidate` (jsonptr.go:31-32) is not modelled. Its body is empty, and its job is to run the external validator engine.
- Go reflection is replaced by the `Schema` value. `reflect.TypeOf(nil)` (a nil root) has no counterpart, since the model always has a root type.
- `Schema` is an inductive datatype, so a self-referential Go type (`type Node struct { Next *Node }`) has no finite `Schema`. Such a type is represented by its unfolding to depth |parts|+1. That depth is enough, because `Resolve` reads at most one dereference and one field level per namespace part.
- Go's nil-pointer panics cannot arise in the model, because its datatypes have no nil value: a nil receiver `e` in `Error()` (jsonptr.go:25), a nil `detail.FieldError` (jsonptr.go:26) and a nil `fe` in `ResolveJSONPtr` (jsonptr.go:36) are not modelled.
- `Slice` stands for Go's slice and array kinds. `Other` stands for every other non-struct, non-pointer kind.
- `FieldByName` is modelled as the first field with the given name. Promotion through embedded fields and its ambiguity rules are not modelled.
- Struct-tag syntax is not parsed. A field's `tag` is the value `Tag.Get("json")` would return, and the empty string when there is none.
- `validator.FieldError` is reduced to two opaque strings, `Namespace()` and `Error()`. The validator's own namespace conventions are outside the model, for example whether the namespace begins with the root type's name.
- `fmt.Sprintf` is modelled only as the fixed `Error at '%s': %s\n` concatenation of two strings.
- Strings are sequences of characters. UTF-8 bytes and `strings.Builder` buffering are not modelled.
- The `ValidatorError` field of `JSONPtrValidationError` is carried as an optional message, and `Error()` does not read it (jsonptr.go:23-29).
