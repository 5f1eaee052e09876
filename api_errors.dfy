/**
 * The error payload of the HTTP layer (br.com.library.api.exception.ApiErrors):
 * an ordered list of messages, serialised as `{"errors": [...]}`.
 */
module ApiException {
  import opened Exceptions

  /** A validation error of Spring's `BindingResult`, reduced to what is read of it. */
  datatype ObjectError = ObjectError(objectName: string, defaultMessage: string)

  /** The outcome of binding a request body: its errors, in the order `getAllErrors` lists them. */
  datatype BindingResult = BindingResult(allErrors: seq<ObjectError>)

  /** The default messages of `errors`, one per error, in the same order. */
  function DefaultMessages(errors: seq<ObjectError>): (r: seq<string>)
    ensures |r| == |errors|
    ensures forall i :: 0 <= i < |errors| ==> r[i] == errors[i].defaultMessage
  {
    if errors == [] then [] else [errors[0].defaultMessage] + DefaultMessages(errors[1..])
  }

  /** The messages of two error lists reported together are the messages of each, in turn; appending one error appends its message. */
  lemma DefaultMessagesAppend(a: seq<ObjectError>, b: seq<ObjectError>)
    ensures DefaultMessages(a + b) == DefaultMessages(a) + DefaultMessages(b)
  {
  }

  class ApiErrors {
    var errors: seq<string>

    /** From a validation failure: one message per binding error, appended in order. */
    constructor FromBindingResult(bindResult: BindingResult)
      ensures errors == DefaultMessages(bindResult.allErrors)
    {
      errors := [];
      new;
      var all := bindResult.allErrors;
      for i := 0 to |all|
        invariant errors == DefaultMessages(all[..i])
      {
        assert all[..i + 1] == all[..i] + [all[i]];
        DefaultMessagesAppend(all[..i], [all[i]]);
        errors := errors + [all[i].defaultMessage];
      }
      assert all[..|all|] == all;
    }

    /** From a business failure: a list holding exactly the exception's message. */
    constructor FromBusinessException(exception: BusinessException)
      ensures errors == [exception.message]
    {
      errors := [exception.message];
    }

    /** `getErrors`: the stored list, as built. */
    function GetErrors(): (r: seq<string>)
      reads this
      ensures r == errors
    {
      errors
    }
  }
}
