/**
 * The error annotations the contact form puts on the page
 * (showFieldError, clearFieldError, clearErrors and the validation pass of
 * validateForm in assets/js/form.js), as values.
 *
 * Each field may carry the `error` class. Each field sits in a container
 * (its parent node), and the container holds the `.field-error` elements
 * in document order. Fields that share a container share those elements.
 */
module ErrorDisplay {
  import opened Wrappers
  import opened Text
  import opened FieldCheck

  /** A field as the page's markup fixes it. `watched` says whether it has a role class (`.form-input`, `.form-textarea`, `.form-select`) and so the blur and input listeners. */
  datatype FieldDecl = FieldDecl(kind: Kind, required: bool, container: nat, watched: bool, defaultValue: string)

  /** Which fields carry the `error` class, and the `.field-error` texts in each container. */
  datatype Display = Display(marked: seq<bool>, notes: seq<seq<Message>>)

  predicate Fits(decls: seq<FieldDecl>, d: Display) {
    |d.marked| == |decls| && forall i | 0 <= i < |decls| :: decls[i].container < |d.notes|
  }

  /** No container holds more than one `.field-error`. */
  predicate AtMostOneNote(d: Display) {
    forall c | 0 <= c < |d.notes| :: |d.notes[c]| <= 1
  }

  /** The verdict of validateField on every field, with the fields' current values, in document order. */
  function Verdicts(decls: seq<FieldDecl>, values: seq<string>): (vs: seq<Option<Message>>)
    requires |values| == |decls|
    ensures |vs| == |decls|
  {
    if decls == [] then []
    else [Check(decls[0].kind, decls[0].required, values[0])] + Verdicts(decls[1..], values[1..])
  }

  /** Entry `i` of the verdicts is field `i`'s own verdict. */
  lemma {:induction false} VerdictAt(decls: seq<FieldDecl>, values: seq<string>, i: nat)
    requires |values| == |decls| && i < |decls|
    ensures Verdicts(decls, values)[i] == Check(decls[i].kind, decls[i].required, values[i])
  {
    if i > 0 {
      VerdictAt(decls[1..], values[1..], i - 1);
    }
  }

  /** What a container shows once a field in it was validated with verdict `v` (and nothing else wrote to it). */
  function NoteFor(v: Option<Message>): seq<Message> {
    if v.Some? then [v.value] else []
  }

  /**
   * showFieldError on a container's elements: the first `.field-error` gets
   * the text; one is appended only when there is none. So a container never
   * gains a second element this way.
   */
  function WithNote(notes: seq<Message>, m: Message): (r: seq<Message>)
    ensures r != [] && r[0] == m
    ensures |r| <= 1 <==> |notes| <= 1
    ensures |notes| <= 1 ==> r == [m]
  {
    if notes == [] then [m] else [m] + notes[1..]
  }

  /** clearFieldError on a container's elements: the first `.field-error`, if any, is removed. */
  function WithoutNote(notes: seq<Message>): (r: seq<Message>)
    ensures |notes| <= 1 ==> r == []
    ensures |r| == if notes == [] then 0 else |notes| - 1
  {
    if notes == [] then [] else notes[1..]
  }

  /** showFieldError(field i, m). */
  function Show(decls: seq<FieldDecl>, d: Display, i: nat, m: Message): (r: Display)
    requires Fits(decls, d) && i < |decls|
    ensures Fits(decls, r) && r.marked[i]
    ensures AtMostOneNote(d) ==> AtMostOneNote(r) && r.notes[decls[i].container] == [m]
  {
    var c := decls[i].container;
    Display(d.marked[i := true], d.notes[c := WithNote(d.notes[c], m)])
  }

  /** clearFieldError(field i). */
  function Hide(decls: seq<FieldDecl>, d: Display, i: nat): (r: Display)
    requires Fits(decls, d) && i < |decls|
    ensures Fits(decls, r) && !r.marked[i]
    ensures AtMostOneNote(d) ==> AtMostOneNote(r) && r.notes[decls[i].container] == []
  {
    var c := decls[i].container;
    Display(d.marked[i := false], d.notes[c := WithoutNote(d.notes[c])])
  }

  /** The display effect of validateField(field i). */
  function Validate(decls: seq<FieldDecl>, vs: seq<Option<Message>>, d: Display, i: nat): (r: Display)
    requires Fits(decls, d) && |vs| == |decls| && i < |decls|
    ensures Fits(decls, r) && r.marked[i] == vs[i].Some?
  {
    match vs[i]
    case Some(m) => Show(decls, d, i, m)
    case None => Hide(decls, d, i)
  }

  /** clearErrors: no field keeps the `error` class and no container keeps a `.field-error`. */
  function Cleared(d: Display): (r: Display)
    ensures |r.marked| == |d.marked| && |r.notes| == |d.notes|
    ensures forall i | 0 <= i < |r.marked| :: !r.marked[i]
    ensures forall c | 0 <= c < |r.notes| :: r.notes[c] == []
  {
    Display(seq(|d.marked|, _ => false), seq(|d.notes|, _ => []))
  }

  /** The display after validateForm has validated the required ones among the first `k` fields, in document order. */
  function Sweep(decls: seq<FieldDecl>, vs: seq<Option<Message>>, d: Display, k: nat): (r: Display)
    requires Fits(decls, d) && |vs| == |decls| && k <= |decls|
    ensures Fits(decls, r)
    decreases k
  {
    if k == 0 then d
    else
      var p := Sweep(decls, vs, d, k - 1);
      if decls[k - 1].required then Validate(decls, vs, p, k - 1) else p
  }

  /** The last required field among the first `k` that sits in container `c`, if any. */
  function LastRequiredIn(decls: seq<FieldDecl>, c: nat, k: nat): (r: Option<nat>)
    requires k <= |decls|
    ensures r.Some? ==> r.value < k && decls[r.value].required && decls[r.value].container == c
    ensures forall i | (if r.Some? then r.value + 1 else 0) <= i < k :: !(decls[i].required && decls[i].container == c)
  {
    if k == 0 then None
    else if decls[k - 1].required && decls[k - 1].container == c then Some(k - 1)
    else LastRequiredIn(decls, c, k - 1)
  }

  /** validateForm's verdict: every required field is valid. */
  predicate FormValid(decls: seq<FieldDecl>, vs: seq<Option<Message>>)
    requires |vs| == |decls|
  {
    forall i | 0 <= i < |decls| && decls[i].required :: vs[i] == None
  }

  /**
   * Validating a field marks it exactly when a message was chosen, leaves
   * every other field's mark alone, and leaves its container holding exactly
   * that message, or nothing; other containers are untouched and no
   * container ever holds two messages.
   */
  lemma ValidateEffect(decls: seq<FieldDecl>, vs: seq<Option<Message>>, d: Display, i: nat)
    requires Fits(decls, d) && |vs| == |decls| && i < |decls| && AtMostOneNote(d)
    ensures var r := Validate(decls, vs, d, i);
      && AtMostOneNote(r)
      && r.marked == d.marked[i := vs[i].Some?]
      && |r.notes| == |d.notes|
      && r.notes[decls[i].container] == NoteFor(vs[i])
      && forall c | 0 <= c < |d.notes| && c != decls[i].container :: r.notes[c] == d.notes[c]
  {
  }

  /** Validating a field again, with the same value, changes nothing: no second message, no residual mark. */
  lemma ValidateIdempotent(decls: seq<FieldDecl>, vs: seq<Option<Message>>, d: Display, i: nat)
    requires Fits(decls, d) && |vs| == |decls| && i < |decls| && AtMostOneNote(d)
    ensures Validate(decls, vs, Validate(decls, vs, d, i), i) == Validate(decls, vs, d, i)
  {
    var r := Validate(decls, vs, d, i);
    ValidateEffect(decls, vs, d, i);
    ValidateEffect(decls, vs, r, i);
  }

  /** After the pass, a required field among the first `k` is marked exactly when it is invalid; every other field keeps its mark. */
  lemma {:induction false} SweepMarks(decls: seq<FieldDecl>, vs: seq<Option<Message>>, d: Display, k: nat)
    requires Fits(decls, d) && |vs| == |decls| && k <= |decls|
    ensures forall i | 0 <= i < |decls| ::
      Sweep(decls, vs, d, k).marked[i] ==
        if i < k && decls[i].required then vs[i].Some? else d.marked[i]
  {
    if k > 0 {
      SweepMarks(decls, vs, d, k - 1);
      var p := Sweep(decls, vs, d, k - 1);
      var r := Sweep(decls, vs, d, k);
      var v := vs[k - 1];
      assert r.marked == if decls[k - 1].required then p.marked[k - 1 := v.Some?] else p.marked;
      forall i | 0 <= i < |decls|
        ensures r.marked[i] == if i < k && decls[i].required then vs[i].Some? else d.marked[i]
      {
        if i != k - 1 {
          assert r.marked[i] == p.marked[i];
        }
      }
    }
  }

  /**
   * After the pass no container holds two messages, and each container shows
   * the verdict of the LAST required field in it that was validated, or what
   * it showed before when it holds no such field. A valid field therefore
   * removes the message of an invalid one validated before it in the same
   * container.
   */
  lemma {:induction false} SweepNotes(decls: seq<FieldDecl>, vs: seq<Option<Message>>, d: Display, k: nat)
    requires Fits(decls, d) && |vs| == |decls| && k <= |decls| && AtMostOneNote(d)
    ensures var r := Sweep(decls, vs, d, k);
      && AtMostOneNote(r)
      && |r.notes| == |d.notes|
      && forall c | 0 <= c < |d.notes| ::
        r.notes[c] == match LastRequiredIn(decls, c, k)
                      case None => d.notes[c]
                      case Some(i) => NoteFor(vs[i])
  {
    if k > 0 {
      SweepNotes(decls, vs, d, k - 1);
      if decls[k - 1].required {
        ValidateEffect(decls, vs, Sweep(decls, vs, d, k - 1), k - 1);
      }
    }
  }

  /**
   * The display a submit attempt leaves (clearErrors, then validateForm):
   * exactly the invalid required fields are marked, whatever was marked
   * before, and a container shows a message only through a required field
   * in it.
   */
  lemma SubmitDisplay(decls: seq<FieldDecl>, vs: seq<Option<Message>>, d: Display)
    requires Fits(decls, d) && |vs| == |decls|
    ensures var r := Sweep(decls, vs, Cleared(d), |decls|);
      && AtMostOneNote(r)
      && |r.notes| == |d.notes|
      && (forall i | 0 <= i < |decls| :: r.marked[i] == (decls[i].required && vs[i].Some?))
      && forall c | 0 <= c < |d.notes| ::
        r.notes[c] == match LastRequiredIn(decls, c, |decls|)
                      case None => []
                      case Some(i) => NoteFor(vs[i])
  {
    SweepMarks(decls, vs, Cleared(d), |decls|);
    SweepNotes(decls, vs, Cleared(d), |decls|);
  }

  /** The form-wide verdict is true exactly when a submit attempt leaves no field marked. */
  lemma FormValidIffNothingMarked(decls: seq<FieldDecl>, vs: seq<Option<Message>>, d: Display)
    requires Fits(decls, d) && |vs| == |decls|
    ensures FormValid(decls, vs) <==> forall i | 0 <= i < |decls| :: !Sweep(decls, vs, Cleared(d), |decls|).marked[i]
  {
    SubmitDisplay(decls, vs, d);
  }

  /** Two required fields in one container, the first blank and the second filled in. */
  function SharedPair(): seq<FieldDecl> {
    [FieldDecl(OtherInput, true, 0, true, ""), FieldDecl(OtherInput, true, 0, true, "")]
  }

  lemma FilledRequiredIsValid()
    ensures Check(OtherInput, true, "Aisha") == None
  {
    assert !IsWhitespace("Aisha"[0]);
    assert !AllWhitespace("Aisha");
  }

  lemma SharedPairVerdicts()
    ensures Verdicts(SharedPair(), ["", "Aisha"]) == [Some(Required), None]
  {
    var values := ["", "Aisha"];
    BlankRequiredIsRequired(OtherInput, "");
    FilledRequiredIsValid();
    VerdictAt(SharedPair(), values, 0);
    VerdictAt(SharedPair(), values, 1);
  }

  /**
   * After the pass over SharedPair the first field is marked but the
   * container shows no message: validating the second field removed it.
   */
  lemma SharedContainerHidesMessage()
    ensures Sweep(SharedPair(), Verdicts(SharedPair(), ["", "Aisha"]), Display([false, false], [[]]), 2)
         == Display([true, false], [[]])
  {
    SharedPairVerdicts();
  }
}
