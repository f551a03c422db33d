/**
 * The contact section: the message form's state machine, the project counts, the displayed
 * role, the target of the social links and the message counter.
 */
module Contact {
  import opened Wrappers
  import opened JsStrings
  import opened PortfolioData

  // ---------------------------------------------------------------------------
  // The form
  // ---------------------------------------------------------------------------

  /** The `name` attributes of the four inputs. */
  const FieldNames: set<string> := {"name", "email", "subject", "message"}

  /** All four fields empty. */
  function EmptyForm(): (m: map<string, string>)
    ensures m.Keys == FieldNames
    ensures forall k :: k in m ==> m[k] == ""
  {
    map["name" := "", "email" := "", "subject" := "", "message" := ""]
  }

  /**
   * The form state. The submission is simulated: `HandleSubmit` starts it, `CompleteSubmit`
   * is its first timer firing and `ResetForm` the second; time itself is not modelled.
   */
  class ContactForm {
    var formData: map<string, string>
    var isSubmitting: bool
    var submitStatus: Option<string>

    constructor ()
      ensures formData == EmptyForm() && !isSubmitting && submitStatus == None
    {
      formData := EmptyForm();
      isSubmitting := false;
      submitStatus := None;
    }

    /** An input's change event: the field its `name` names takes the new value. */
    method HandleInputChange(name: string, value: string)
      modifies this
      ensures formData == old(formData)[name := value]
      ensures forall k :: k in old(formData) && k != name ==> k in formData && formData[k] == old(formData)[k]
      ensures isSubmitting == old(isSubmitting) && submitStatus == old(submitStatus)
    {
      formData := formData[name := value];
    }

    /** Submitting: the button switches to its sending state; the fields are kept. */
    method HandleSubmit()
      modifies this
      ensures isSubmitting
      ensures formData == old(formData) && submitStatus == old(submitStatus)
    {
      isSubmitting := true;
    }

    /** The simulated reply arrives: sending ends and the success message shows. */
    method CompleteSubmit()
      modifies this
      ensures !isSubmitting && submitStatus == Some("success")
      ensures formData == old(formData)
    {
      isSubmitting := false;
      submitStatus := Some("success");
    }

    /** The form is cleared; the success status is left as it is. */
    method ResetForm()
      modifies this
      ensures formData == EmptyForm()
      ensures isSubmitting == old(isSubmitting) && submitStatus == old(submitStatus)
    {
      formData := EmptyForm();
    }
  }

  /** Whether the success overlay is rendered. */
  predicate ShowsSuccess(submitStatus: Option<string>) {
    submitStatus == Some("success")
  }

  /** One full submission from any state ends with empty fields and the success overlay up. */
  method SubmissionScenario(form: ContactForm)
    modifies form
    ensures form.formData == EmptyForm() && !form.isSubmitting && ShowsSuccess(form.submitStatus)
  {
    form.HandleInputChange("message", "Hello");
    assert form.formData["message"] == "Hello";
    form.HandleSubmit();
    assert form.isSubmitting;
    form.CompleteSubmit();
    form.ResetForm();
  }

  // ---------------------------------------------------------------------------
  // Derived values
  // ---------------------------------------------------------------------------

  /** `projects.filter(p => p.status === status).length` */
  function CountWithStatus(projects: seq<Project>, status: string): (n: nat)
    ensures n <= |projects|
    ensures n == 0 <==> forall i :: 0 <= i < |projects| ==> projects[i].status != Some(status)
    decreases |projects|
  {
    if |projects| == 0 then 0
    else
      var rest := CountWithStatus(projects[1..], status);
      assert forall i :: 1 <= i < |projects| ==> projects[i] == projects[1..][i - 1];
      (if projects[0].status == Some(status) then 1 else 0) + rest
  }

  /** The completed and live counts together never exceed the number of projects. */
  lemma {:induction false} CompletedAndLiveBounded(projects: seq<Project>)
    ensures CountWithStatus(projects, "completed") + CountWithStatus(projects, "live") <= |projects|
    decreases |projects|
  {
    if |projects| > 0 {
      CompletedAndLiveBounded(projects[1..]);
    }
  }

  /** No shipped project has a status, so both counts are 0 (the stats show fixed text instead). */
  lemma ShippedProjectCounts()
    ensures CountWithStatus(Projects, "completed") == 0 && CountWithStatus(Projects, "live") == 0
  {
  }

  /** `role.split('(')[0].trim()`: the role without its parenthesised part. */
  function RoleLabel(role: string): (r: string)
    ensures '(' !in role ==> r == Trim(role)
    ensures '(' in role ==> r == Trim(role[..IndexOf(role, '(')])
    ensures '(' !in r
  {
    FirstPieceIndexOf(role, '(');
    var before := FirstPiece(role, '(');
    var r := Trim(before);
    TrimWindow(before);
    r
  }

  /** A link opens a new tab exactly when its url starts with `http`. */
  function LinkTarget(url: string): (t: string)
    ensures t == "_blank" <==> StartsWith(url, "http")
    ensures t == "_self" <==> !StartsWith(url, "http")
  {
    if StartsWith(url, "http") then "_blank" else "_self"
  }

  datatype SocialLink = SocialLink(platform: string, url: string)

  const SocialLinks: seq<SocialLink> := [
    SocialLink("LinkedIn", Info.linkedin),
    SocialLink("GitHub", Info.github),
    SocialLink("Email", "mailto:" + Info.email),
    SocialLink("Portfolio", "#hero")
  ]

  /** The profile links open in a new tab; the mail link and the in-page link do not. */
  lemma SocialLinkTargets()
    ensures LinkTarget(SocialLinks[0].url) == "_blank" && LinkTarget(SocialLinks[1].url) == "_blank"
    ensures LinkTarget(SocialLinks[2].url) == "_self" && LinkTarget(SocialLinks[3].url) == "_self"
  {
    assert "http" <= SocialLinks[0].url && "http" <= SocialLinks[1].url;
    assert SocialLinks[2].url[0] == 'm' && SocialLinks[3].url[0] == '#';
  }

  /** The counter under the message: its length, then `/500`. */
  function MessageCounter(message: string): (r: string)
    ensures |r| > 4 && r[|r| - 4..] == "/500"
    ensures forall k :: 0 <= k < |r| - 4 ==> IsDigit(r[k])
    ensures DecimalValue(r[..|r| - 4]) == |message|
  {
    NatToStringRoundTrip(|message|);
    var digits := NatToString(|message|);
    var r := digits + "/500";
    assert r[..|r| - 4] == digits;
    r
  }
}
