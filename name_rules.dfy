/** The name check shared by the course-type and course screens: a name must not be
    blank after trimming and must differ, ignoring case, from every other entry's name;
    when editing, the entry being edited does not count. The stored name is the
    untrimmed input. */
module NameRules {
  import opened Wrappers
  import opened Seqs
  import opened Text
  import opened AppContext

  /** Some entry other than the one being edited has `name`, ignoring case. */
  predicate Clashes(xs: seq<Named>, name: string, editing: Option<Named>)
  {
    exists i :: 0 <= i < |xs| && (editing.None? || xs[i].id != editing.value.id)
                && ToLower(xs[i].name) == ToLower(name)
  }

  function SameFoldedName(name: string): Named -> bool
  {
    (x: Named) => ToLower(x.name) == ToLower(name)
  }

  function OtherWithFoldedName(editingId: string, name: string): Named -> bool
  {
    (x: Named) => x.id != editingId && ToLower(x.name) == ToLower(name)
  }

  /** `validateForm`: the blank check first, then the duplicate check for adding or for
      editing. Each failure carries the screen's message. */
  function ValidateName(xs: seq<Named>, name: string, editing: Option<Named>,
                        required: string, taken: string): (r: Outcome<string>)
    requires required != taken
    ensures r == Fail(required) <==> IsBlank(name)
    ensures r == Fail(taken) <==> !IsBlank(name) && Clashes(xs, name, editing)
    ensures r == Pass <==> !IsBlank(name) && !Clashes(xs, name, editing)
  {
    TrimEmptyIffBlank(name);
    if Trim(name) == [] then Fail(required)
    else if editing.None? && Any(xs, SameFoldedName(name)) then Fail(taken)
    else if editing.Some? && Any(xs, OtherWithFoldedName(editing.value.id, name)) then Fail(taken)
    else Pass
  }

  /** The payload `handleSubmit` builds: the edited entry with only its name replaced, or a
      new entry whose id is the screen's prefix followed by the clock reading. */
  function Payload(name: string, editing: Option<Named>, prefix: string, stamp: nat): (x: Named)
    ensures editing.Some? ==> x.id == editing.value.id
    ensures editing.None? ==> prefix <= x.id && x.id[|prefix|..] == Decimal(stamp)
    ensures x.name == name
  {
    match editing
    case Some(e) => e.(name := name)
    case None => Named(prefix + Decimal(stamp), name)
  }

  /** Appending a name that clashes with none keeps names unique ignoring case, whatever
      the new entry's id. */
  lemma AppendKeepsNames(xs: seq<Named>, x: Named)
    requires DistinctBy(xs, FoldedName)
    requires !Clashes(xs, x.name, None)
    ensures DistinctBy(xs + [x], FoldedName)
  {
    AppendDistinct(xs, x, FoldedName);
  }

  /** Renaming the entry with `x`'s id to a name no other entry has keeps names unique
      ignoring case. */
  lemma ReplaceKeepsNames(xs: seq<Named>, x: Named)
    requires DistinctBy(xs, IdOf) && DistinctBy(xs, FoldedName)
    requires !Clashes(xs, x.name, Some(x))
    ensures DistinctBy(ReplaceWhere(xs, HasId(x.id), x), FoldedName)
  {
    ReplaceDistinct(xs, HasId(x.id), x, FoldedName);
  }

  /** Appending a name that clashes with none keeps names and ids unique, given a fresh id. */
  lemma AppendKeepsKeys(xs: seq<Named>, x: Named)
    requires DistinctBy(xs, IdOf) && DistinctBy(xs, FoldedName)
    requires !Clashes(xs, x.name, None)
    requires forall i :: 0 <= i < |xs| ==> xs[i].id != x.id
    ensures DistinctBy(xs + [x], IdOf) && DistinctBy(xs + [x], FoldedName)
  {
    AppendDistinct(xs, x, IdOf);
    AppendKeepsNames(xs, x);
  }

  /** Renaming the entry with `x`'s id to a name no other entry has keeps names and ids
      unique. Ids must already be unique: the store renames every entry with that id. */
  lemma ReplaceKeepsKeys(xs: seq<Named>, x: Named)
    requires DistinctBy(xs, IdOf) && DistinctBy(xs, FoldedName)
    requires !Clashes(xs, x.name, Some(x))
    ensures DistinctBy(ReplaceWhere(xs, HasId(x.id), x), IdOf)
    ensures DistinctBy(ReplaceWhere(xs, HasId(x.id), x), FoldedName)
  {
    ReplaceDistinct(xs, HasId(x.id), x, IdOf);
    ReplaceKeepsNames(xs, x);
  }
}
