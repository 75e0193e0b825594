/**
 * The contact-form controller of assets/js/form.js as an object whose
 * handlers change the page in place: the submit handler (clearErrors, then
 * validateForm, then submitForm), the blur and input listeners, and the
 * ends of a submission (network response, transport failure, or the demo
 * timer), with their banners and the submit button.
 *
 * The network is not modelled: a pending network submission ends when the
 * environment calls NetworkSettled with one of three outcomes. Timers are
 * events as well: DemoElapsed for the 800 ms demo delay, ExpireBanner for
 * the 8 s banner removal.
 */
module ContactForm {
  import opened Wrappers
  import opened Text
  import opened FieldCheck
  import opened ErrorDisplay

  /** How a network submission ended: a response with `ok`, a response without it, or no response at all. */
  datatype Outcome = Delivered | Refused | Unreachable

  /** The network path posts to the form's action; the demo path only waits. */
  datatype Path = Network | Demo

  /** A submission that has not ended yet, with the button text to put back when it does. */
  datatype Request = Request(path: Path, savedText: string)

  datatype BannerKind = SuccessBanner | ErrorBanner(text: string)

  /** A banner inserted right after the form; `id` tells the removal timer which one is its own. */
  datatype Banner = Banner(id: nat, kind: BannerKind)

  const SendingText: string := "Sending..."
  const ServerErrorText: string := "Something went wrong. Please try again or contact us directly."
  const NetworkErrorText: string := "Network error. Please try again or call us at 03-7612 9141."
  const FallbackPhone: string := "03-7612 9141"

  function Window(s: string, i: nat, n: nat): string
    requires i + n <= |s|
  {
    s[i..i + n]
  }

  /** `part` occurs in `s`. */
  predicate Mentions(s: string, part: string) {
    exists i: nat | i + |part| <= |s| :: Window(s, i, |part|) == part
  }

  /** The network path is taken exactly when the form has an action attribute that starts with `https://`. */
  function ChoosePath(action: Option<string>): (p: Path)
    ensures p == Network <==> exists rest :: action == Some("https://" + rest)
  {
    if action.Some? && StartsWith(action.value, "https://") then
      assert action.value == "https://" + action.value[|"https://"|..];
      Network
    else
      Demo
  }

  /**
   * The banner an outcome leads to: the success banner exactly when the
   * response was ok; the network-error banner, which gives the fallback
   * phone number, when there was no response.
   */
  function BannerFor(o: Outcome): (k: BannerKind)
    ensures k == SuccessBanner <==> o == Delivered
    ensures o == Refused ==> k == ErrorBanner(ServerErrorText)
    ensures o == Unreachable ==> k.ErrorBanner? && Mentions(k.text, FallbackPhone)
  {
    match o
    case Delivered => SuccessBanner
    case Refused => ErrorBanner(ServerErrorText)
    case Unreachable =>
      assert Window(NetworkErrorText, 46, |FallbackPhone|) == FallbackPhone;
      ErrorBanner(NetworkErrorText)
  }

  /** Banner ids strictly decrease from the nearest banner on: newer banners sit nearer the form. */
  predicate Decreasing(banners: seq<Banner>) {
    forall i, j | 0 <= i < j < |banners| :: banners[i].id > banners[j].id
  }

  /** The banners left once the one with `id` has removed itself; removing one already gone changes nothing. */
  function Without(banners: seq<Banner>, id: nat): (r: seq<Banner>)
    ensures forall b :: b in r <==> b in banners && b.id != id
    ensures (forall b | b in banners :: b.id != id) ==> r == banners
  {
    if banners == [] then []
    else if banners[0].id == id then Without(banners[1..], id)
    else [banners[0]] + Without(banners[1..], id)
  }

  /** Removing the nearest banner leaves the rest as they were, since no other banner shares its id. */
  lemma WithoutNearest(banners: seq<Banner>)
    requires Decreasing(banners) && banners != []
    ensures Without(banners, banners[0].id) == banners[1..]
  {
    var rest := banners[1..];
    forall b | b in rest
      ensures b.id != banners[0].id
    {
      var q :| 0 <= q < |rest| && rest[q] == b;
      assert banners[q + 1] == b;
    }
  }

  /** Dropping entry `p > 0` of a sequence is keeping its head and dropping entry `p - 1` of its tail. */
  lemma DropAfterHead<T>(s: seq<T>, p: nat)
    requires 0 < p < |s|
    ensures [s[0]] + (s[1..][..p - 1] + s[1..][p..]) == s[..p] + s[p + 1..]
  {
    assert s[..p] == [s[0]] + s[1..][..p - 1];
    assert s[p + 1..] == s[1..][p..];
  }

  /** Removing a banner keeps the others in their order. */
  lemma {:induction false} WithoutKeepsOrder(banners: seq<Banner>, id: nat, p: nat)
    requires Decreasing(banners) && p < |banners| && banners[p].id == id
    ensures Without(banners, id) == banners[..p] + banners[p + 1..]
  {
    var rest := banners[1..];
    if p == 0 {
      WithoutNearest(banners);
      assert banners[..p] + banners[p + 1..] == rest;
    } else {
      assert banners[0].id != id;
      WithoutKeepsOrder(rest, id, p - 1);
      DropAfterHead(banners, p);
    }
  }

  /** Removing a banner keeps the ids decreasing. */
  lemma {:induction false} WithoutDecreasing(banners: seq<Banner>, id: nat)
    requires Decreasing(banners)
    ensures Decreasing(Without(banners, id))
  {
    if banners != [] {
      WithoutDecreasing(banners[1..], id);
      var rest := Without(banners[1..], id);
      assert forall b | b in rest :: b in banners[1..];
    }
  }

  /** The values form.reset() gives back: each field's default value. */
  function Defaults(decls: seq<FieldDecl>): (r: seq<string>)
    ensures |r| == |decls|
    ensures forall i | 0 <= i < |decls| :: r[i] == decls[i].defaultValue
  {
    seq(|decls|, i requires 0 <= i < |decls| => decls[i].defaultValue)
  }

  class Form {
    const decls: seq<FieldDecl>
    /** The form's `action` attribute. */
    const action: Option<string>
    /** Whether the form has a `[type="submit"]` element. */
    const hasButton: bool
    /** The submit button's text as the page loads it. */
    const initialText: string

    var values: seq<string>
    var marked: seq<bool>
    var notes: seq<seq<Message>>
    var disabled: bool
    var buttonText: string
    var pending: seq<Request>
    /** The banners after the form, nearest first. */
    var banners: seq<Banner>
    var nextBanner: nat

    ghost predicate Valid()
      reads this
    {
      && |values| == |decls|
      && Fits(decls, Shown())
      && AtMostOneNote(Shown())
      && (forall b | b in banners :: b.id < nextBanner)
      && Decreasing(banners)
    }

    /**
     * The button shows the submission state: it is disabled exactly while a
     * submission is pending, there is at most one, and the button reads
     * "Sending..." while it waits and its own label otherwise.
     */
    ghost predicate ButtonTracksPending()
      reads this
    {
      hasButton ==>
        && (disabled <==> pending != [])
        && |pending| <= 1
        && (disabled ==> buttonText == SendingText)
        && (!disabled ==> buttonText == initialText)
        && forall r | r in pending :: r.savedText == initialText
    }

    function Shown(): Display
      reads this
    {
      Display(marked, notes)
    }

    /** The form as the page loads it: default values, no error shown, the button enabled, nothing pending. */
    constructor (decls: seq<FieldDecl>, containers: nat, action: Option<string>, hasButton: bool, buttonText: string)
      requires forall i | 0 <= i < |decls| :: decls[i].container < containers
      ensures Valid()
      ensures this.decls == decls && this.action == action && this.hasButton == hasButton && initialText == buttonText
      ensures values == Defaults(decls)
      ensures marked == seq(|decls|, _ => false) && notes == seq(containers, _ => [])
      ensures !disabled && this.buttonText == buttonText && pending == [] && banners == []
      ensures ButtonTracksPending()
    {
      this.decls := decls;
      this.action := action;
      this.hasButton := hasButton;
      initialText := buttonText;
      values := Defaults(decls);
      marked := seq(|decls|, _ => false);
      notes := seq(containers, _ => []);
      disabled := false;
      this.buttonText := buttonText;
      pending := [];
      banners := [];
      nextBanner := 0;
    }

    /** showFieldError: mark the field and write the message into its container's `.field-error`, adding one only if there is none. */
    method ShowFieldError(i: nat, m: Message)
      requires Valid() && i < |decls|
      modifies this`marked, this`notes
      ensures Valid()
      ensures Shown() == Show(decls, old(Shown()), i, m)
    {
      marked := marked[i := true];
      var c := decls[i].container;
      if notes[c] == [] {
        notes := notes[c := [m]];
      } else {
        notes := notes[c := [m] + notes[c][1..]];
      }
    }

    /** clearFieldError: unmark the field and remove its container's `.field-error`, if any. */
    method ClearFieldError(i: nat)
      requires Valid() && i < |decls|
      modifies this`marked, this`notes
      ensures Valid()
      ensures Shown() == Hide(decls, old(Shown()), i)
    {
      marked := marked[i := false];
      var c := decls[i].container;
      if notes[c] != [] {
        notes := notes[c := notes[c][1..]];
      }
    }

    /** validateField: true exactly when no message was chosen; the field is marked afterwards exactly when it returned false. */
    method ValidateField(i: nat) returns (ok: bool)
      requires Valid() && i < |decls|
      modifies this`marked, this`notes
      ensures Valid()
      ensures ok <==> Verdicts(decls, values)[i] == None
      ensures Shown() == Validate(decls, Verdicts(decls, values), old(Shown()), i)
      ensures marked[i] == !ok
    {
      VerdictAt(decls, values, i);
      var error := Check(decls[i].kind, decls[i].required, values[i]);
      if error.Some? {
        ShowFieldError(i, error.value);
        return false;
      }
      ClearFieldError(i);
      return true;
    }

    /** clearErrors: every `error` class and every `.field-error` in the form goes. */
    method ClearErrors()
      requires Valid()
      modifies this`marked, this`notes
      ensures Valid()
      ensures Shown() == Cleared(old(Shown()))
    {
      var i := 0;
      while i < |marked|
        invariant 0 <= i <= |marked| == |old(marked)|
        invariant forall j | 0 <= j < i :: !marked[j]
        invariant notes == old(notes)
      {
        if marked[i] {
          marked := marked[i := false];
        }
        i := i + 1;
      }
      var c := 0;
      while c < |notes|
        invariant 0 <= c <= |notes| == |old(notes)|
        invariant forall j | 0 <= j < c :: notes[j] == []
        invariant forall j | 0 <= j < |marked| :: !marked[j]
        invariant |marked| == |old(marked)|
      {
        notes := notes[c := []];
        c := c + 1;
      }
      assert marked == Cleared(old(Shown())).marked;
      assert notes == Cleared(old(Shown())).notes;
    }

    /**
     * validateForm: every required field is validated, in document order and
     * without stopping at the first failure; the answer is whether all of
     * them passed.
     */
    method ValidateForm() returns (ok: bool)
      requires Valid()
      modifies this`marked, this`notes
      ensures Valid()
      ensures ok <==> FormValid(decls, Verdicts(decls, values))
      ensures Shown() == Sweep(decls, Verdicts(decls, values), old(Shown()), |decls|)
    {
      ghost var vs := Verdicts(decls, values);
      ghost var start := Shown();
      ok := true;
      var i := 0;
      while i < |decls|
        invariant 0 <= i <= |decls| && Valid()
        invariant Shown() == Sweep(decls, vs, start, i)
        invariant ok <==> forall j | 0 <= j < i && decls[j].required :: vs[j] == None
      {
        if decls[i].required {
          var fieldOk := ValidateField(i);
          if !fieldOk {
            ok := false;
          }
        }
        i := i + 1;
      }
    }

    /**
     * submitForm up to the point where it waits: disable the button and show
     * "Sending...", remembering the buttonText it had, and start the network or
     * the demo path.
     */
    method SubmitForm()
      requires Valid()
      modifies this`disabled, this`buttonText, this`pending
      ensures Valid()
      ensures pending == old(pending) + [Request(ChoosePath(action), if hasButton then old(buttonText) else "")]
      ensures hasButton ==> disabled && buttonText == SendingText
      ensures !hasButton ==> disabled == old(disabled) && buttonText == old(buttonText)
    {
      var saved := if hasButton then buttonText else "";
      if hasButton {
        disabled := true;
        buttonText := SendingText;
      }
      pending := pending + [Request(ChoosePath(action), saved)];
    }

    /**
     * The submit listener: clear all errors, validate the form, and submit
     * only when it is valid. A rejected attempt leaves only the inline errors
     * and touches neither the button nor the pending submissions.
     */
    method OnSubmit() returns (accepted: bool)
      requires Valid()
      modifies this`marked, this`notes, this`disabled, this`buttonText, this`pending
      ensures Valid()
      ensures accepted <==> FormValid(decls, Verdicts(decls, values))
      ensures Shown() == Sweep(decls, Verdicts(decls, values), Cleared(old(Shown())), |decls|)
      ensures pending == if accepted then old(pending) + [Request(ChoosePath(action), if hasButton then old(buttonText) else "")] else old(pending)
      ensures accepted && hasButton ==> disabled && buttonText == SendingText
      ensures !(accepted && hasButton) ==> disabled == old(disabled) && buttonText == old(buttonText)
      ensures old(ButtonTracksPending()) && !(hasButton && old(disabled)) ==> ButtonTracksPending()
    {
      ClearErrors();
      accepted := ValidateForm();
      if accepted {
        SubmitForm();
      }
    }

    /**
     * A submission the user starts, with the submit button or with Enter in
     * a field: the browser fires no submit event while the form's submit
     * button is disabled, so a busy form stays exactly as it is. Otherwise
     * the submit listener runs.
     */
    method UserSubmit() returns (accepted: bool)
      requires Valid()
      modifies this`marked, this`notes, this`disabled, this`buttonText, this`pending
      ensures Valid()
      ensures hasButton && old(disabled) ==>
        !accepted && Shown() == old(Shown()) && pending == old(pending) && disabled && buttonText == old(buttonText)
      ensures !(hasButton && old(disabled)) ==>
        && (accepted <==> FormValid(decls, Verdicts(decls, values)))
        && Shown() == Sweep(decls, Verdicts(decls, values), Cleared(old(Shown())), |decls|)
        && pending == (if accepted then old(pending) + [Request(ChoosePath(action), if hasButton then old(buttonText) else "")] else old(pending))
        && (accepted && hasButton ==> disabled && buttonText == SendingText)
        && (!(accepted && hasButton) ==> disabled == old(disabled) && buttonText == old(buttonText))
      ensures old(ButtonTracksPending()) ==> ButtonTracksPending()
    {
      if hasButton && disabled {
        return false;
      }
      accepted := OnSubmit();
    }

    /** The blur listener: a field with a role class is validated when it loses focus. */
    method OnBlur(i: nat)
      requires Valid() && i < |decls|
      modifies this`marked, this`notes
      ensures Valid()
      ensures Shown() == if decls[i].watched then Validate(decls, Verdicts(decls, values), old(Shown()), i) else old(Shown())
    {
      if decls[i].watched {
        var _ := ValidateField(i);
      }
    }

    /** The user edits field `i`; its input listener re-validates it only while it carries the `error` class. */
    method OnInput(i: nat, v: string)
      requires Valid() && i < |decls|
      modifies this`values, this`marked, this`notes
      ensures Valid()
      ensures values == old(values)[i := v]
      ensures Shown() == if decls[i].watched && old(marked)[i] then Validate(decls, Verdicts(decls, values), old(Shown()), i) else old(Shown())
    {
      values := values[i := v];
      if decls[i].watched && marked[i] {
        var _ := ValidateField(i);
      }
    }

    /** showSuccess: a success banner right after the form, and form.reset(). */
    method ShowSuccess()
      requires Valid()
      modifies this`values, this`banners, this`nextBanner
      ensures Valid()
      ensures banners == [Banner(old(nextBanner), SuccessBanner)] + old(banners)
      ensures nextBanner == old(nextBanner) + 1
      ensures values == Defaults(decls)
    {
      banners := [Banner(nextBanner, SuccessBanner)] + banners;
      nextBanner := nextBanner + 1;
      values := Defaults(decls);
    }

    /** showFormError: an error banner right after the form; the values stay. */
    method ShowFormError(text: string)
      requires Valid()
      modifies this`banners, this`nextBanner
      ensures Valid()
      ensures banners == [Banner(old(nextBanner), ErrorBanner(text))] + old(banners)
      ensures nextBanner == old(nextBanner) + 1
    {
      banners := [Banner(nextBanner, ErrorBanner(text))] + banners;
      nextBanner := nextBanner + 1;
    }

    /** The `finally` step, also run at the end of the demo path: the button is enabled again with the buttonText it had before "Sending...". */
    method RestoreButton(saved: string)
      modifies this`disabled, this`buttonText
      ensures hasButton ==> !disabled && buttonText == saved
      ensures !hasButton ==> disabled == old(disabled) && buttonText == old(buttonText)
    {
      if hasButton {
        disabled := false;
        buttonText := saved;
      }
    }

    /**
     * The network submission `k` ends with `outcome`: one banner for it, the
     * values reset only on success, and the button restored in every case.
     */
    method NetworkSettled(k: nat, outcome: Outcome)
      requires Valid() && k < |pending| && pending[k].path == Network
      modifies this`values, this`banners, this`nextBanner, this`pending, this`disabled, this`buttonText
      ensures Valid()
      ensures pending == old(pending[..k] + pending[k + 1..])
      ensures banners == [Banner(old(nextBanner), BannerFor(outcome))] + old(banners)
      ensures values == if outcome == Delivered then Defaults(decls) else old(values)
      ensures hasButton ==> !disabled && buttonText == old(pending[k].savedText)
      ensures !hasButton ==> disabled == old(disabled) && buttonText == old(buttonText)
      ensures old(ButtonTracksPending()) ==> ButtonTracksPending()
    {
      var request := pending[k];
      pending := pending[..k] + pending[k + 1..];
      match outcome {
        case Delivered => ShowSuccess();
        case Refused => ShowFormError(ServerErrorText);
        case Unreachable => ShowFormError(NetworkErrorText);
      }
      RestoreButton(request.savedText);
    }

    /** The demo submission `k` reaches the end of its delay: it always succeeds, and the button is restored. */
    method DemoElapsed(k: nat)
      requires Valid() && k < |pending| && pending[k].path == Demo
      modifies this`values, this`banners, this`nextBanner, this`pending, this`disabled, this`buttonText
      ensures Valid()
      ensures pending == old(pending[..k] + pending[k + 1..])
      ensures banners == [Banner(old(nextBanner), SuccessBanner)] + old(banners)
      ensures values == Defaults(decls)
      ensures hasButton ==> !disabled && buttonText == old(pending[k].savedText)
      ensures !hasButton ==> disabled == old(disabled) && buttonText == old(buttonText)
      ensures old(ButtonTracksPending()) ==> ButtonTracksPending()
    {
      var request := pending[k];
      pending := pending[..k] + pending[k + 1..];
      ShowSuccess();
      RestoreButton(request.savedText);
    }

    /** The 8 s timer of banner `id` fires: that banner goes, and nothing happens if it is already gone. */
    method ExpireBanner(id: nat)
      requires Valid()
      modifies this`banners
      ensures Valid()
      ensures banners == Without(old(banners), id)
    {
      WithoutDecreasing(banners, id);
      banners := Without(banners, id);
    }
  }
}
