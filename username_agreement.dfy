/**
 Both `src/utils` files export a `validateUsername`. They share the first
 four guards and messages; the word filter's adds the moderation check after
 them.
 */
module UsernameAgreement {
  import opened JsText
  import WordFilter
  import Validation

  /**
   Whenever the form validator rejects a name, the word filter rejects it
   with the same message; when the form validator accepts it, the word filter
   accepts it or reports inappropriate content.
   */
  lemma ValidatorsAgree(username: string, blocked: set<string>)
    ensures Validation.ValidateUsername(username).Some? ==>
              WordFilter.UsernameVerdict(username, blocked) == Validation.ValidateUsername(username)
    ensures Validation.ValidateUsername(username) == None ==>
              WordFilter.UsernameVerdict(username, blocked) == None ||
              WordFilter.UsernameVerdict(username, blocked) == Some(WordFilter.UsernameInappropriate)
    ensures WordFilter.UsernameVerdict(username, blocked) == None ==> Validation.ValidateUsername(username) == None
  {
  }
}
