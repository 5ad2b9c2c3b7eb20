/** HTTP errors as the web framework raises and renders them. */
module Http {
  import opened Wrappers
  import opened Text

  /** An `HTTPException`: its status code and its detail text. */
  datatype HttpError = HttpError(status: nat, detail: string)

  /** `str(e)` of an `HTTPException`: the framework renders it as `"<status>: <detail>"`.
      This is what a generic `except Exception as e` handler puts into the detail of
      the exception it raises in its place. The status reads back from the text
      before `": "`, and the detail follows unchanged. */
  function ExceptionText(e: HttpError): (s: string)
    ensures var d := |s| - |e.detail|;
      d >= 3 && s[d..] == e.detail && s[d - 2..d] == ": " && ParseNat(s[..d - 2]) == Some(e.status)
  {
    var code := NatToString(e.status);
    ParseNatToString(e.status);
    assert (code + ": " + e.detail)[..|code|] == code;
    code + ": " + e.detail
  }
}
