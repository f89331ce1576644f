/** Choosing the API key: the `--key` option, then the `GEMINI_API_KEY`
    environment variable, then a placeholder that is always refused. */
module ApiKey {
  import opened Common

  /** The hard-coded fallback users are told to replace. */
  const Placeholder := "YOUR_GEMINI_API_KEY_HERE"

  /** `get_api_key`: a non-empty environment value, else the placeholder.
      The environment is passed in rather than read. */
  function GetApiKey(env: Option<string>): (key: string)
    ensures key != ""
    ensures Truthy(env) ==> key == env.value
    ensures !Truthy(env) ==> key == Placeholder
  {
    if Truthy(env) then env.value else Placeholder
  }

  /** The key `generate_image` ends up with before it checks it: a non-empty
      explicit key is kept, otherwise `get_api_key` decides. */
  function CandidateKey(explicit: Option<string>, env: Option<string>): (key: string)
    ensures Truthy(explicit) ==> key == explicit.value
    ensures !Truthy(explicit) && Truthy(env) ==> key == env.value
    ensures !Truthy(explicit) && !Truthy(env) ==> key == Placeholder
  {
    if Truthy(explicit) then explicit.value else GetApiKey(env)
  }

  /** The resolution and the check that ends the script when no usable key
      was found. A successful resolution is never empty nor the placeholder,
      and comes from the first non-empty source in precedence order. */
  function ResolveApiKey(explicit: Option<string>, env: Option<string>): (r: Result<string>)
    ensures r.Success? ==> r.value != "" && r.value != Placeholder
    ensures r.Success? && Truthy(explicit) ==> r.value == explicit.value
    ensures r.Success? && !Truthy(explicit) ==> Truthy(env) && r.value == env.value
    ensures r.Failure? ==> r.error == MissingApiKey
    ensures r.Failure? <==>
              (Truthy(explicit) && explicit.value == Placeholder)
              || (!Truthy(explicit) && (!Truthy(env) || env.value == Placeholder))
  {
    var key := CandidateKey(explicit, env);
    if key == Placeholder || key == "" then Failure(MissingApiKey) else Success(key)
  }

  /** A usable explicit key wins over any environment value. */
  lemma ExplicitKeyWins(key: string, env: Option<string>)
    requires key != "" && key != Placeholder
    ensures ResolveApiKey(Some(key), env) == Success(key)
  {
  }

  /** With no usable explicit key and no environment value the call fails. */
  lemma NoKeyFails(explicit: Option<string>)
    requires !Truthy(explicit)
    ensures ResolveApiKey(explicit, None) == Failure(MissingApiKey)
    ensures ResolveApiKey(explicit, Some("")) == Failure(MissingApiKey)
  {
  }
}
