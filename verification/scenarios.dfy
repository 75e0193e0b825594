/**
 * Whole submit attempts on small forms, driven through the handlers of
 * ContactForm.Form: what the user sees at the end of each.
 */
module Scenarios {
  import opened Wrappers
  import opened Text
  import opened FieldCheck
  import opened ErrorDisplay
  import opened ContactForm

  const Endpoint: string := "https://formspree.io/f/contact"

  /** A single required text field, empty by default, in container 0. */
  function NameOnly(): seq<FieldDecl> {
    [FieldDecl(OtherInput, true, 0, true, "")]
  }

  /** A name that is not blank passes; an empty one is required. */
  lemma NameOnlyVerdicts(name: string)
    ensures !AllWhitespace(name) ==> Verdicts(NameOnly(), [name]) == [None]
    ensures Verdicts(NameOnly(), [""]) == [Some(Required)]
  {
    if !AllWhitespace(name) {
      FilledIsValid(OtherInput, true, name);
      VerdictAt(NameOnly(), [name], 0);
    }
    BlankRequiredIsRequired(OtherInput, "");
    VerdictAt(NameOnly(), [""], 0);
  }

  lemma EndpointIsNetwork()
    ensures ChoosePath(Some(Endpoint)) == Network
  {
    assert Endpoint == "https://" + Endpoint[8..];
  }

  /**
   * Submitting with the required field left empty, towards a real endpoint:
   * nothing is sent, the button stays enabled, and exactly one message —
   * the required one — is shown, on that field.
   */
  method BlankRequiredBlocksSubmit() returns (accepted: bool, requests: nat, enabled: bool, shown: Display)
    ensures !accepted && requests == 0 && enabled
    ensures shown == Display([true], [[Required]])
  {
    var form := new Form(NameOnly(), 1, Some(Endpoint), true, "Send Message");
    NameOnlyVerdicts("");
    assert form.values == [""];
    ghost var start := form.Shown();
    assert Cleared(start) == Display([false], [[]]);
    accepted := form.OnSubmit();
    assert form.Shown() == Sweep(NameOnly(), [Some(Required)], Display([false], [[]]), 1);
    requests, enabled, shown := |form.pending|, !form.disabled, form.Shown();
  }

  /**
   * The user types a name that is not blank into a fresh single-field form
   * and presses the submit button: the submission is accepted and waits,
   * with the button disabled and reading "Sending...".
   */
  method FillAndSubmit(form: Form, name: string)
    requires form.Valid() && form.decls == NameOnly() && form.hasButton && !AllWhitespace(name)
    requires form.pending == [] && !form.disabled && form.buttonText == "Send Message"
    modifies form
    ensures form.Valid() && form.values == [name]
    ensures form.pending == [Request(ChoosePath(form.action), "Send Message")]
    ensures form.disabled && form.buttonText == SendingText
    ensures form.banners == old(form.banners)
  {
    form.OnInput(0, name);
    NameOnlyVerdicts(name);
    assert form.values == [name];
    var accepted := form.UserSubmit();
    assert accepted;
  }

  /**
   * A filled-in form with no action attribute: the demo path. While it waits
   * the button reads "Sending..." and is disabled, and pressing it again
   * starts nothing; when the delay ends a success banner appears, the field
   * is reset and the button is back; when the banner's timer fires the
   * banner is gone.
   */
  method DemoSubmission(name: string) returns (busyText: string, busy: bool, again: bool, banners: seq<Banner>, values: seq<string>,
                                   enabled: bool, finalText: string, bannersLater: seq<Banner>)
    requires !AllWhitespace(name)
    ensures busy && busyText == "Sending..." && !again
    ensures |banners| == 1 && banners[0].kind == SuccessBanner
    ensures values == [""] && enabled && finalText == "Send Message"
    ensures bannersLater == []
  {
    var form := new Form(NameOnly(), 1, None, true, "Send Message");
    FillAndSubmit(form, name);
    assert ChoosePath(None) == Demo;
    busyText, busy := form.buttonText, form.disabled;
    again := form.UserSubmit();
    form.DemoElapsed(0);
    banners, values, enabled, finalText := form.banners, form.values, !form.disabled, form.buttonText;
    form.ExpireBanner(banners[0].id);
    bannersLater := form.banners;
  }

  /**
   * A filled-in form posted to a real endpoint that cannot be reached: the
   * network-error banner appears, the value typed stays, and the button is
   * back with its text.
   */
  method UnreachableEndpoint(name: string) returns (banners: seq<Banner>, values: seq<string>, enabled: bool, finalText: string)
    requires !AllWhitespace(name)
    ensures |banners| == 1 && banners[0].kind == ErrorBanner(NetworkErrorText)
    ensures values == [name] && enabled && finalText == "Send Message"
  {
    var form := new Form(NameOnly(), 1, Some(Endpoint), true, "Send Message");
    FillAndSubmit(form, name);
    EndpointIsNetwork();
    form.NetworkSettled(0, Unreachable);
    banners, values, enabled, finalText := form.banners, form.values, !form.disabled, form.buttonText;
  }
}
