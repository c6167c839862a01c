/**
 * The front end's message tables: the title, text and icon shown for an
 * HTTP error status, with a generic fallback, and the templates of the
 * client-side validation messages.
 */
module Messages {
  import opened Text

  /** What the error page shows for a status. */
  datatype HttpMessage = HttpMessage(title: string, message: string, icon: string)

  /** The statuses with their own message. */
  const StatusMessages: map<int, HttpMessage> := map[
    400 := HttpMessage("Bad Request", "The request could not be understood by the server due to malformed syntax.", "AlertCircle"),
    401 := HttpMessage("Unauthorized", "You need to be logged in to access this resource.", "Lock"),
    403 := HttpMessage("Forbidden", "You don't have permission to access this resource.", "ShieldX"),
    404 := HttpMessage("Page Not Found", "The page you're looking for doesn't exist or has been moved.", "FileQuestion"),
    405 := HttpMessage("Method Not Allowed", "The request method is not supported for this resource.", "Ban"),
    408 := HttpMessage("Request Timeout", "The server timed out waiting for the request.", "Clock"),
    419 := HttpMessage("Session Expired", "Your session has expired. Please refresh and try again.", "TimerOff"),
    422 := HttpMessage("Validation Error", "The submitted data contains invalid values.", "AlertTriangle"),
    429 := HttpMessage("Too Many Requests", "You've made too many requests. Please wait a moment and try again.", "Gauge"),
    500 := HttpMessage("Server Error", "Something went wrong on our end. Please try again later.", "ServerCrash"),
    502 := HttpMessage("Bad Gateway", "The server received an invalid response. Please try again later.", "CloudOff"),
    503 := HttpMessage("Service Unavailable", "The service is temporarily unavailable. Please try again later.", "Construction"),
    504 := HttpMessage("Gateway Timeout", "The server took too long to respond. Please try again.", "Clock")
  ]

  /** What any other status shows. */
  const Fallback: HttpMessage := HttpMessage("Error", "An unexpected error occurred. Please try again.", "AlertCircle")

  /** `getHttpErrorMessage`: the status's own message, or the fallback. */
  function HttpErrorMessage(status: int): (m: HttpMessage)
    ensures status in StatusMessages ==> m == StatusMessages[status]
    ensures status !in StatusMessages ==> m == Fallback
  {
    if status in StatusMessages then StatusMessages[status] else Fallback
  }

  /** Exactly thirteen statuses have their own message. */
  lemma ListedStatuses()
    ensures StatusMessages.Keys == {400, 401, 403, 404, 405, 408, 419, 422, 429, 500, 502, 503, 504}
  {
  }

  /** The title "Error" is shown exactly for the statuses without their own message. */
  lemma FallbackTitleOnlyForUnlisted(status: int)
    ensures HttpErrorMessage(status).title == "Error" <==> status !in StatusMessages
  {
    if status in StatusMessages {
      assert |StatusMessages[status].title| != 5;
    }
  }

  // ---------------------------------------------------------------------
  // Validation message templates
  //
  // Every template but `unique` and `exists` opens with the field label;
  // those two put the lower-cased label after a fixed opening.
  // ---------------------------------------------------------------------

  function Required(field: string): (r: string)
    ensures OpensWith(r, field)
  {
    field + " is required."
  }

  function Min(field: string, min: int): (r: string)
    ensures OpensWith(r, field)
  {
    field + " must be at least " + IntToString(min) + " characters."
  }

  function Max(field: string, max: int): (r: string)
    ensures OpensWith(r, field)
  {
    field + " must not exceed " + IntToString(max) + " characters."
  }

  function MinValue(field: string, min: int): (r: string)
    ensures OpensWith(r, field)
  {
    field + " must be at least " + IntToString(min) + "."
  }

  function MaxValue(field: string, max: int): (r: string)
    ensures OpensWith(r, field)
  {
    field + " must not exceed " + IntToString(max) + "."
  }

  function Confirmed(field: string): (r: string)
    ensures OpensWith(r, field)
  {
    field + " confirmation does not match."
  }

  function Alpha(field: string): (r: string)
    ensures OpensWith(r, field)
  {
    field + " may only contain letters."
  }

  function AlphaNum(field: string): (r: string)
    ensures OpensWith(r, field)
  {
    field + " may only contain letters and numbers."
  }

  function AlphaNumDash(field: string): (r: string)
    ensures OpensWith(r, field)
  {
    field + " may only contain letters, numbers, dashes, and underscores."
  }

  /** The `unique` template lower-cases the field name. */
  function Unique(field: string): (r: string)
    ensures 5 + |field| < |r| && r[..5] == "This " && r[5..5 + |field|] == ToLower(field)
  {
    "This " + ToLower(field) + " is already taken."
  }

  /** The `exists` template lower-cases the field name. */
  function Exists(field: string): (r: string)
    ensures 13 + |field| < |r| && r[..13] == "The selected " && r[13..13 + |field|] == ToLower(field)
  {
    "The selected " + ToLower(field) + " is invalid."
  }

  /** The `in` template lists the allowed values separated by ", ". */
  function In(field: string, values: seq<string>): (r: string)
    ensures OpensWith(r, field)
  {
    field + " must be one of: " + JoinWith(values, ", ") + "."
  }

  function NotIn(field: string, values: seq<string>): (r: string)
    ensures OpensWith(r, field)
  {
    field + " must not be one of: " + JoinWith(values, ", ") + "."
  }

  /** Two strings built around the same prefix and suffix agree in the middle. */
  lemma SameFrame(pre: string, x: string, y: string, suf: string)
    requires pre + x + suf == pre + y + suf
    ensures x == y
  {
    var s := pre + x + suf;
    assert x == s[|pre|..|pre| + |x|];
    assert y == (pre + y + suf)[|pre|..|pre| + |y|];
  }

  /** The message names its field: different fields give different messages. */
  lemma RequiredNamesField(a: string, b: string)
    requires Required(a) == Required(b)
    ensures a == b
  {
    assert a == Required(a)[..|a|];
    assert b == Required(b)[..|b|];
  }

  /** The length messages embed their bound: different bounds give different messages. */
  lemma MinNamesBound(field: string, a: int, b: int)
    requires Min(field, a) == Min(field, b)
    ensures a == b
  {
    SameFrame(field + " must be at least ", IntToString(a), IntToString(b), " characters.");
    IntToStringInjective(a, b);
  }

  lemma MaxNamesBound(field: string, a: int, b: int)
    requires Max(field, a) == Max(field, b)
    ensures a == b
  {
    SameFrame(field + " must not exceed ", IntToString(a), IntToString(b), " characters.");
    IntToStringInjective(a, b);
  }

  lemma MinValueNamesBound(field: string, a: int, b: int)
    requires MinValue(field, a) == MinValue(field, b)
    ensures a == b
  {
    SameFrame(field + " must be at least ", IntToString(a), IntToString(b), ".");
    IntToStringInjective(a, b);
  }

  lemma MaxValueNamesBound(field: string, a: int, b: int)
    requires MaxValue(field, a) == MaxValue(field, b)
    ensures a == b
  {
    SameFrame(field + " must not exceed ", IntToString(a), IntToString(b), ".");
    IntToStringInjective(a, b);
  }

  /**
   * `unique` and `exists` read the same for field names that differ only
   * in case, and carry no upper-case letter from the field name.
   */
  lemma UniqueAndExistsIgnoreCase(field: string)
    ensures Unique(field) == Unique(ToLower(field))
    ensures Exists(field) == Exists(ToLower(field))
    ensures forall i :: 5 <= i < 5 + |field| ==> !('A' <= Unique(field)[i] <= 'Z')
  {
    ToLowerIdempotent(field);
    forall i | 5 <= i < 5 + |field| ensures !('A' <= Unique(field)[i] <= 'Z') {
      assert Unique(field)[i] == ToLower(field)[i - 5];
    }
  }

  /** Every value the join is given appears in it. */
  lemma {:induction false} JoinWithContains(values: seq<string>, sep: string, i: int)
    requires 0 <= i < |values|
    ensures exists pre, post :: JoinWith(values, sep) == pre + values[i] + post
    decreases |values|
  {
    if |values| == 1 {
      assert JoinWith(values, sep) == [] + values[0] + [];
    } else if i == 0 {
      assert JoinWith(values, sep) == [] + values[0] + (sep + JoinWith(values[1..], sep));
    } else {
      JoinWithContains(values[1..], sep, i - 1);
      var pre, post :| JoinWith(values[1..], sep) == pre + values[1..][i - 1] + post;
      assert JoinWith(values, sep) == (values[0] + sep + pre) + values[i] + post;
    }
  }

  /** The `in` and `not in` messages mention every listed value. */
  lemma InListsEveryValue(field: string, values: seq<string>, i: int)
    requires 0 <= i < |values|
    ensures Contains(In(field, values), values[i])
    ensures Contains(NotIn(field, values), values[i])
  {
    JoinWithContains(values, ", ", i);
    var pre, post :| JoinWith(values, ", ") == pre + values[i] + post;
    assert In(field, values) == (field + " must be one of: " + pre) + values[i] + (post + ".");
    ContainsMiddle(field + " must be one of: " + pre, values[i], post + ".");
    assert NotIn(field, values) == (field + " must not be one of: " + pre) + values[i] + (post + ".");
    ContainsMiddle(field + " must not be one of: " + pre, values[i], post + ".");
  }

  /** The `in` message for one value names just that value. */
  lemma InSingleValue(field: string, value: string)
    ensures In(field, [value]) == field + " must be one of: " + value + "."
  {
  }
}
