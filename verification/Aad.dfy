/** What an answer of the directory service means. */
module Aad {

  const INVALID_CRED: int := 50126
  const REQUIRES_MFA: int := 50076
  const NO_SUCH_USER: int := 50034
  const NO_CONSENT: int := 65001
  const NO_CLIENT_SECRET: int := 7000218

  datatype Body = Unreadable | NotJson | Codes(codes: seq<int>)

  /** No client could be made; the call failed with a response; it failed otherwise; a token came. */
  datatype Answer = NoClient | CallError(body: Body) | OtherError | Token

  datatype Verdict = Allow | Deny | NoNetwork

  /** The loop over the error codes: the first known one decides. */
  function ByCodes(codes: seq<int>): Verdict {
    if codes == [] then Deny
    else if codes[0] == INVALID_CRED then Deny
    else if codes[0] == NO_SUCH_USER then Deny
    else if codes[0] == REQUIRES_MFA then Allow
    else if codes[0] == NO_CONSENT then Deny
    else if codes[0] == NO_CLIENT_SECRET then Deny
    else ByCodes(codes[1..])
  }

  /** Authenticate of the directory client. */
  function Classify(a: Answer): Verdict {
    match a
    case NoClient => NoNetwork
    case CallError(Unreadable) => Deny
    case CallError(NotJson) => Deny
    case CallError(Codes(codes)) => ByCodes(codes)
    case OtherError => NoNetwork
    case Token => Allow
  }

  /** Wrong password, unknown user, no consent, no public client flow: the service's own numbers. */
  predicate Denying(code: int) {
    code in {50126, 50034, 65001, 7000218}
  }

  /** The multi-factor code occurs, and no denying code before it. */
  ghost predicate OnlyMfaMissing(codes: seq<int>) {
    exists i :: 0 <= i < |codes| && codes[i] == 50076 && forall j :: 0 <= j < i ==> !Denying(codes[j])
  }

  lemma {:induction false} ByCodesMfa(codes: seq<int>)
    ensures ByCodes(codes) == Allow <==> OnlyMfaMissing(codes)
    ensures ByCodes(codes) == Allow || ByCodes(codes) == Deny
  {
    if codes != [] {
      ByCodesMfa(codes[1..]);
      if OnlyMfaMissing(codes[1..]) && !Denying(codes[0]) {
        var i :| 0 <= i < |codes[1..]| && codes[1..][i] == 50076 && forall j :: 0 <= j < i ==> !Denying(codes[1..][j]);
        assert forall j :: 0 <= j < i + 1 ==> j == 0 || codes[j] == codes[1..][j - 1];
        assert codes[i + 1] == 50076;
      }
      if OnlyMfaMissing(codes) && codes[0] != 50076 {
        var i :| 0 <= i < |codes| && codes[i] == 50076 && forall j :: 0 <= j < i ==> !Denying(codes[j]);
        assert codes[1..][i - 1] == 50076;
        assert forall j :: 0 <= j < i - 1 ==> codes[1..][j] == codes[j + 1];
      }
    }
  }

  /** In the numbers of the service: 50076 occurs before every one of the four denying codes. */
  lemma ByCodesIff(codes: seq<int>)
    ensures ByCodes(codes) == Allow <==>
      exists i :: 0 <= i < |codes| && codes[i] == 50076
               && forall j :: 0 <= j < i ==> codes[j] !in {50126, 50034, 65001, 7000218}
    ensures ByCodes(codes) != Allow ==> ByCodes(codes) == Deny
  {
    ByCodesMfa(codes);
    if OnlyMfaMissing(codes) {
      var i :| 0 <= i < |codes| && codes[i] == 50076 && forall j :: 0 <= j < i ==> !Denying(codes[j]);
      assert forall j :: 0 <= j < i ==> !Denying(codes[j]) && codes[j] !in {50126, 50034, 65001, 7000218};
    }
  }

  /** Both directions for every answer. */
  lemma ClassifyIff(a: Answer)
    ensures Classify(a) == Allow <==>
      || a == Token
      || (a.CallError? && a.body.Codes? &&
          exists i :: 0 <= i < |a.body.codes| && a.body.codes[i] == 50076
                   && forall j :: 0 <= j < i ==> a.body.codes[j] !in {50126, 50034, 65001, 7000218})
    ensures Classify(a) == NoNetwork <==> a == NoClient || a == OtherError
  {
    if a.CallError? && a.body.Codes? {
      ByCodesIff(a.body.codes);
    }
  }
}
