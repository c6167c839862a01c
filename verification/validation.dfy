/**
 * Client-side form validation: rule factories that turn a form value into
 * `true` or a message, and the per-form state that records one message per
 * field. Each field's rules run in order and the first failure wins;
 * validating the form runs every field.
 *
 * A rule's result is `None` for `true` and `Some(message)` for a failure.
 */
module Validation {
  import opened Wrappers
  import opened Text
  import Messages

  /** A form value as the rules see it. Numbers are integers here. */
  datatype Value = Undefined | Null | Str(s: string) | Num(n: int) | Bool(b: bool) | List(items: seq<Value>)

  type FormData = map<string, Value>

  /** `data[name]`: a missing key reads as `undefined`. */
  function Lookup(data: FormData, name: string): Value {
    if name in data then data[name] else Undefined
  }

  /** JavaScript truthiness. */
  predicate Truthy(v: Value) {
    match v
    case Undefined => false
    case Null => false
    case Str(s) => s != ""
    case Num(n) => n != 0
    case Bool(b) => b
    case List(_) => true
  }

  /**
   * JavaScript's `String(v)`: an array is its elements joined by commas,
   * with `null` and `undefined` elements written as nothing.
   */
  function Stringify(v: Value): string
    decreases v
  {
    match v
    case Undefined => "undefined"
    case Null => "null"
    case Str(s) => s
    case Num(n) => IntToString(n)
    case Bool(b) => if b then "true" else "false"
    case List(items) =>
      JoinWith(seq(|items|, i requires 0 <= i < |items| =>
                 if items[i].Null? || items[i].Undefined? then "" else Stringify(items[i])), ",")
  }

  /** `value.length`: defined for strings, counted in UTF-16 code units, and arrays only. */
  function Length(v: Value): Option<int> {
    match v
    case Str(s) => Some(Utf16Length(s))
    case List(items) => Some(|items|)
    case _ => None
  }

  /** What `required` rejects: null, undefined, the empty string and the empty array. */
  predicate IsEmpty(v: Value) {
    v == Null || v == Undefined || v == Str("") || v == List([])
  }

  predicate IsLetter(c: char) {
    'a' <= c <= 'z' || 'A' <= c <= 'Z'
  }

  predicate IsAlphaNum(c: char) {
    IsLetter(c) || '0' <= c <= '9'
  }

  predicate IsAlphaNumDash(c: char) {
    IsAlphaNum(c) || c == '_' || c == '-'
  }

  /** A regular expression `^[class]+$`: non-empty and made of the class only. */
  predicate AllOf(s: string, accepts: char -> bool) {
    s != [] && forall i :: 0 <= i < |s| ==> accepts(s[i])
  }

  /** The rules the factories build, with the field label they report. */
  datatype Rule =
    | Required(field: string)
    | MinLength(field: string, min: int)
    | MaxLength(field: string, max: int)
    | MinValue(field: string, min: int)
    | MaxValue(field: string, max: int)
    | Confirmed(field: string, other: string)
    | Alpha(field: string)
    | AlphaNum(field: string)
    | AlphaNumDash(field: string)
    | InArray(field: string, allowed: seq<Value>)
    | NotInArray(field: string, disallowed: seq<Value>)
    | MinItems(field: string, min: int)
    | MaxItems(field: string, max: int)
    | Custom(validator: (Value, FormData) -> bool, message: string)

  function Strings(values: seq<Value>): (r: seq<string>)
    ensures |r| == |values|
    ensures forall i :: 0 <= i < |values| ==> r[i] == Stringify(values[i])
  {
    seq(|values|, i requires 0 <= i < |values| => Stringify(values[i]))
  }

  /** The `s` of `item${n > 1 ? 's' : ''}`. */
  function Plural(n: int): string {
    if n > 1 then "s" else ""
  }

  function MinItemsMessage(field: string, min: int): (r: string)
    ensures OpensWith(r, field)
  {
    field + " must have at least " + IntToString(min) + " item" + Plural(min) + "."
  }

  function MaxItemsMessage(field: string, max: int): (r: string)
    ensures OpensWith(r, field)
  {
    field + " must not have more than " + IntToString(max) + " item" + Plural(max) + "."
  }

  /** A character-class rule on a truthy value, which is checked as `String(value)`. */
  function ClassCheck(v: Value, accepts: char -> bool, message: string): Option<string> {
    if !Truthy(v) then None
    else if !AllOf(Stringify(v), accepts) then Some(message)
    else None
  }

  /**
   * Applies one rule to a value, with the whole form for `confirmed`.
   * `required` fails exactly on an empty value; every other built-in rule
   * except the value bounds lets a falsy value through; and a built-in
   * rule's message opens with its field label.
   */
  function Check(rule: Rule, v: Value, data: FormData): (r: Option<string>)
    ensures rule.Required? ==> (r.Some? <==> IsEmpty(v))
    ensures !rule.Required? && !rule.MinValue? && !rule.MaxValue? && !rule.Custom? && !Truthy(v) ==> r.None?
    ensures r.Some? && !rule.Custom? ==> OpensWith(r.value, rule.field)
  {
    match rule
    case Required(field) =>
      if IsEmpty(v) then Some(Messages.Required(field)) else None
    case MinLength(field, min) =>
      if Truthy(v) && Length(v).Some? && Length(v).value < min then Some(Messages.Min(field, min)) else None
    case MaxLength(field, max) =>
      if Truthy(v) && Length(v).Some? && Length(v).value > max then Some(Messages.Max(field, max)) else None
    case MinValue(field, min) =>
      if v.Num? && v.n < min then Some(Messages.MinValue(field, min)) else None
    case MaxValue(field, max) =>
      if v.Num? && v.n > max then Some(Messages.MaxValue(field, max)) else None
    case Confirmed(field, other) =>
      if Truthy(v) && v != Lookup(data, other) then Some(Messages.Confirmed(field)) else None
    case Alpha(field) => ClassCheck(v, IsLetter, Messages.Alpha(field))
    case AlphaNum(field) => ClassCheck(v, IsAlphaNum, Messages.AlphaNum(field))
    case AlphaNumDash(field) => ClassCheck(v, IsAlphaNumDash, Messages.AlphaNumDash(field))
    case InArray(field, allowed) =>
      if Truthy(v) && v !in allowed then Some(Messages.In(field, Strings(allowed))) else None
    case NotInArray(field, disallowed) =>
      if Truthy(v) && v in disallowed then Some(Messages.NotIn(field, Strings(disallowed))) else None
    case MinItems(field, min) =>
      if Truthy(v) && Length(v).Some? && Length(v).value < min then Some(MinItemsMessage(field, min)) else None
    case MaxItems(field, max) =>
      if Truthy(v) && Length(v).Some? && Length(v).value > max then Some(MaxItemsMessage(field, max)) else None
    case Custom(validator, message) =>
      if !validator(v, data) then Some(message) else None
  }

  // ---------------------------------------------------------------------
  // What the rules accept
  // ---------------------------------------------------------------------

  /** `required` fails exactly on null, undefined, "" and the empty array (so 0 and false pass). */
  lemma RequiredRejectsExactlyEmpty(field: string, v: Value, data: FormData)
    ensures Check(Required(field), v, data).Some? <==> IsEmpty(v)
    ensures Check(Required(field), v, data).Some? ==> Check(Required(field), v, data).value == Messages.Required(field)
    ensures Check(Required(field), Num(0), data).None? && Check(Required(field), Bool(false), data).None?
  {
  }

  /** The rules other than `required`, the value bounds and custom rules let every falsy value through. */
  lemma OptionalRulesPassOnFalsy(rule: Rule, v: Value, data: FormData)
    requires !rule.Required? && !rule.MinValue? && !rule.MaxValue? && !rule.Custom?
    requires !Truthy(v)
    ensures Check(rule, v, data).None?
  {
  }

  /**
   * The value bounds let only null and undefined through unchecked: zero
   * is compared like any other number.
   */
  lemma ValueBoundsCheckZero(field: string, data: FormData)
    ensures Check(MinValue(field, 1), Null, data).None? && Check(MinValue(field, 1), Undefined, data).None?
    ensures Check(MinValue(field, 1), Num(0), data) == Some(Messages.MinValue(field, 1))
    ensures Check(MaxValue(field, -1), Num(0), data) == Some(Messages.MaxValue(field, -1))
  {
  }

  /**
   * On a string, `minLength` fails exactly when it is non-empty and below the
   * bound in UTF-16 code units, and `maxLength` when it is non-empty and above it;
   * for text within the Basic Multilingual Plane that is the number of
   * characters.
   */
  lemma LengthRules(field: string, s: string, bound: int, data: FormData)
    ensures Check(MinLength(field, bound), Str(s), data).Some? <==> s != "" && Utf16Length(s) < bound
    ensures Check(MaxLength(field, bound), Str(s), data).Some? <==> s != "" && Utf16Length(s) > bound
    ensures (forall i :: 0 <= i < |s| ==> s[i] as int < 0x1_0000) ==>
      (Check(MinLength(field, bound), Str(s), data).Some? <==> s != "" && |s| < bound) &&
      (Check(MaxLength(field, bound), Str(s), data).Some? <==> s != "" && |s| > bound)
  {
    MinLengthRule(field, s, bound, data);
    MaxLengthRule(field, s, bound, data);
  }

  lemma MinLengthRule(field: string, s: string, bound: int, data: FormData)
    ensures Check(MinLength(field, bound), Str(s), data).Some? <==> s != "" && Utf16Length(s) < bound
  {
  }

  lemma MaxLengthRule(field: string, s: string, bound: int, data: FormData)
    ensures Check(MaxLength(field, bound), Str(s), data).Some? <==> s != "" && Utf16Length(s) > bound
  {
  }

  /** One emoji is one character but two code units, so `maxLength(1)` rejects it. */
  lemma EmojiExceedsMaxLengthOne(field: string, data: FormData)
    ensures Check(MaxLength(field, 1), Str("\U{1F600}"), data) == Some(Messages.Max(field, 1))
  {
    Utf16LengthOfEmoji();
  }

  /** The length rules do not apply to numbers and booleans: `length` is undefined there. */
  lemma LengthRulesIgnoreScalars(field: string, n: int, bound: int, data: FormData)
    ensures Check(MinLength(field, bound), Num(n), data).None?
    ensures Check(MaxLength(field, bound), Bool(true), data).None?
  {
  }

  /** On a non-empty string the character-class rules accept exactly the strings of their class. */
  lemma CharacterClasses(field: string, s: string, data: FormData)
    requires s != ""
    ensures Check(Alpha(field), Str(s), data).None? <==> forall i :: 0 <= i < |s| ==> IsLetter(s[i])
    ensures Check(AlphaNum(field), Str(s), data).None? <==> forall i :: 0 <= i < |s| ==> IsAlphaNum(s[i])
    ensures Check(AlphaNumDash(field), Str(s), data).None? <==> forall i :: 0 <= i < |s| ==> IsAlphaNumDash(s[i])
  {
    AlphaIsClassCheck(field, Str(s), data);
    AlphaNumIsClassCheck(field, Str(s), data);
    AlphaNumDashIsClassCheck(field, Str(s), data);
  }

  /** Each class contains the previous one, so the rules are ordered by strictness. */
  lemma ClassesNest(field: string, v: Value, data: FormData)
    ensures Check(Alpha(field), v, data).None? ==> Check(AlphaNum(field), v, data).None?
    ensures Check(AlphaNum(field), v, data).None? ==> Check(AlphaNumDash(field), v, data).None?
  {
    AlphaIsClassCheck(field, v, data);
    AlphaNumIsClassCheck(field, v, data);
    AlphaNumDashIsClassCheck(field, v, data);
    ClassCheckWidens(v, IsLetter, IsAlphaNum, Messages.Alpha(field), Messages.AlphaNum(field));
    ClassCheckWidens(v, IsAlphaNum, IsAlphaNumDash, Messages.AlphaNum(field), Messages.AlphaNumDash(field));
  }

  lemma AlphaIsClassCheck(field: string, v: Value, data: FormData)
    ensures Check(Alpha(field), v, data) == ClassCheck(v, IsLetter, Messages.Alpha(field))
  {
  }

  lemma AlphaNumIsClassCheck(field: string, v: Value, data: FormData)
    ensures Check(AlphaNum(field), v, data) == ClassCheck(v, IsAlphaNum, Messages.AlphaNum(field))
  {
  }

  lemma AlphaNumDashIsClassCheck(field: string, v: Value, data: FormData)
    ensures Check(AlphaNumDash(field), v, data) == ClassCheck(v, IsAlphaNumDash, Messages.AlphaNumDash(field))
  {
  }

  /** A class rule that passes still passes with a wider class. */
  lemma ClassCheckWidens(v: Value, narrow: char -> bool, wide: char -> bool, m: string, m': string)
    requires forall c :: narrow(c) ==> wide(c)
    ensures ClassCheck(v, narrow, m).None? ==> ClassCheck(v, wide, m').None?
  {
  }

  /** `confirmed` passes on a truthy value exactly when the other field holds the same value. */
  lemma ConfirmedMeaning(field: string, other: string, v: Value, data: FormData)
    requires Truthy(v)
    ensures Check(Confirmed(field, other), v, data).None? <==> other in data && data[other] == v
  {
  }

  /** `inArray` and `notInArray` are complementary on truthy values. */
  lemma MembershipRules(field: string, values: seq<Value>, v: Value, data: FormData)
    requires Truthy(v)
    ensures Check(InArray(field, values), v, data).None? <==> v in values
    ensures Check(NotInArray(field, values), v, data).None? <==> v !in values
  {
  }

  /** The item-count message says "items" exactly when the bound is above one. */
  lemma ItemsPluralisation(field: string, n: int)
    ensures var m := MinItemsMessage(field, n);
            |m| >= 6 && (m[|m| - 6..] == "items." <==> n > 1)
    ensures var m := MaxItemsMessage(field, n);
            |m| >= 6 && (m[|m| - 6..] == "items." <==> n > 1)
  {
    var mid := IntToString(n);
    var m := MinItemsMessage(field, n);
    var x := MaxItemsMessage(field, n);
    if n > 1 {
      assert m == (field + " must have at least " + mid + " item") + "s.";
      assert x == (field + " must not have more than " + mid + " item") + "s.";
    } else {
      assert m == (field + " must have at least " + mid) + " item.";
      assert m[|m| - 6] == ' ';
      assert x == (field + " must not have more than " + mid) + " item.";
      assert x[|x| - 6] == ' ';
    }
  }

  // ---------------------------------------------------------------------
  // A field's rules
  // ---------------------------------------------------------------------

  /**
   * The message of the first failing rule, or `None` when every rule
   * passes.
   */
  function FirstFailure(rules: seq<Rule>, v: Value, data: FormData): (r: Option<string>)
    ensures r.None? <==> forall i :: 0 <= i < |rules| ==> Check(rules[i], v, data).None?
    ensures r.Some? ==> exists i :: 0 <= i < |rules| && Check(rules[i], v, data) == r
                                    && forall j :: 0 <= j < i ==> Check(rules[j], v, data).None?
    decreases |rules|
  {
    if rules == [] then None
    else
      var first := Check(rules[0], v, data);
      if first.Some? then first
      else
        var rest := FirstFailure(rules[1..], v, data);
        FirstFailureAfterPass(rules, v, data, rest);
        rest
  }

  /** When the first rule passes, the first failure of the others is the first failure of all. */
  lemma FirstFailureAfterPass(rules: seq<Rule>, v: Value, data: FormData, rest: Option<string>)
    requires rules != [] && Check(rules[0], v, data).None?
    requires rest.None? <==> forall i :: 0 <= i < |rules[1..]| ==> Check(rules[1..][i], v, data).None?
    requires rest.Some? ==> exists i :: 0 <= i < |rules[1..]| && Check(rules[1..][i], v, data) == rest
                                        && forall j :: 0 <= j < i ==> Check(rules[1..][j], v, data).None?
    ensures rest.None? <==> forall i :: 0 <= i < |rules| ==> Check(rules[i], v, data).None?
    ensures rest.Some? ==> exists i :: 0 <= i < |rules| && Check(rules[i], v, data) == rest
                                       && forall j :: 0 <= j < i ==> Check(rules[j], v, data).None?
  {
    assert forall i :: 1 <= i < |rules| ==> rules[i] == rules[1..][i - 1];
    if rest.Some? {
      var k :| 0 <= k < |rules[1..]| && Check(rules[1..][k], v, data) == rest
               && forall j :: 0 <= j < k ==> Check(rules[1..][j], v, data).None?;
      assert Check(rules[k + 1], v, data) == rest;
    }
  }

  /** The error a field gets: none without rules, otherwise its first failure. */
  function FieldError(rules: map<string, seq<Rule>>, field: string, data: FormData): Option<string> {
    if field in rules then FirstFailure(rules[field], Lookup(data, field), data) else None
  }

  /** The errors of a list of fields, each computed from the form alone. */
  function FieldErrors(rules: map<string, seq<Rule>>, fields: seq<string>, data: FormData): (r: map<string, Option<string>>)
    ensures r.Keys == set i | 0 <= i < |fields| :: fields[i]
  {
    map i | 0 <= i < |fields| :: fields[i] := FieldError(rules, fields[i], data)
  }

  /** A rule list starting with `required` rejects every empty value with the `required` message. */
  lemma RequiredFirstWins(field: string, rest: seq<Rule>, v: Value, data: FormData)
    requires IsEmpty(v)
    ensures FirstFailure([Required(field)] + rest, v, data) == Some(Messages.Required(field))
  {
    assert ([Required(field)] + rest)[0] == Required(field);
  }

  lemma FieldErrorsStep(rules: map<string, seq<Rule>>, fields: seq<string>, i: int, data: FormData)
    requires 0 <= i < |fields|
    ensures FieldErrors(rules, fields[..i + 1], data)
         == FieldErrors(rules, fields[..i], data)[fields[i] := FieldError(rules, fields[i], data)]
  {
    assert fields[..i + 1] == fields[..i] + [fields[i]];
  }

  /** The first `i + 1` fields pass exactly when the first `i` do and field `i` does. */
  lemma AllPassStep(rules: map<string, seq<Rule>>, fields: seq<string>, i: int, data: FormData, before: bool)
    requires 0 <= i < |fields|
    requires before <==> forall j :: 0 <= j < i ==> FieldError(rules, fields[j], data).None?
    ensures (before && FieldError(rules, fields[i], data).None?)
        <==> forall j :: 0 <= j < i + 1 ==> FieldError(rules, fields[j], data).None?
  {
  }

  /** Recording field `i` on top of the first `i` fields' errors gives the first `i + 1` fields' errors. */
  lemma ErrorsStep(before: map<string, Option<string>>, rules: map<string, seq<Rule>>, fields: seq<string>, i: int, data: FormData)
    requires 0 <= i < |fields|
    ensures (before + FieldErrors(rules, fields[..i], data))[fields[i] := FieldError(rules, fields[i], data)]
         == before + FieldErrors(rules, fields[..i + 1], data)
  {
    FieldErrorsStep(rules, fields, i, data);
    UnionUpdate(before, FieldErrors(rules, fields[..i], data), fields[i], FieldError(rules, fields[i], data));
  }

  /** Updating a union is updating its right-hand side. */
  lemma UnionUpdate<K, V>(a: map<K, V>, b: map<K, V>, k: K, v: V)
    ensures (a + b)[k := v] == a + b[k := v]
  {
  }

  /** When the list holds exactly the ruled fields, checking the list is checking every ruled field. */
  lemma ListedFieldsValid(rules: map<string, seq<Rule>>, fields: seq<string>, data: FormData)
    requires forall f :: f in rules <==> f in fields
    ensures (forall j :: 0 <= j < |fields| ==> FieldError(rules, fields[j], data).None?)
        <==> (forall f :: f in rules ==> FieldError(rules, f, data).None?)
  {
    if forall j :: 0 <= j < |fields| ==> FieldError(rules, fields[j], data).None? {
      forall f | f in rules ensures FieldError(rules, f, data).None? {
        var j :| 0 <= j < |fields| && fields[j] == f;
      }
    }
  }

  /** The server's errors: one message or a list of them per field. */
  datatype ServerMessage = One(message: string) | Many(messages: seq<string>)

  /** What `setErrors` stores: the message, or the first of the list (nothing for an empty list). */
  function Stored(m: ServerMessage): (r: Option<string>)
    ensures m.One? ==> r == Some(m.message)
    ensures m.Many? && m.messages != [] ==> r == Some(m.messages[0])
    ensures m.Many? && m.messages == [] ==> r.None?
  {
    match m
    case One(message) => Some(message)
    case Many(messages) => if messages == [] then None else Some(messages[0])
  }

  /** The state of one form's validation. */
  class FormValidator {
    const rules: map<string, seq<Rule>>
    /** The fields with rules, in the order they were declared. */
    const fields: seq<string>
    const validateOnChange: bool
    const validateOnBlur: bool

    var errors: map<string, Option<string>>
    var isValidating: bool
    var hasBeenValidated: bool

    ghost predicate FieldsListed() {
      forall f :: f in rules <==> f in fields
    }

    constructor(rules: map<string, seq<Rule>>, fields: seq<string>, validateOnChange: bool, validateOnBlur: bool)
      requires forall f :: f in rules <==> f in fields
      ensures this.rules == rules && this.fields == fields && FieldsListed()
      ensures this.validateOnChange == validateOnChange && this.validateOnBlur == validateOnBlur
      ensures errors == map[] && !isValidating && !hasBeenValidated
    {
      this.rules := rules;
      this.fields := fields;
      this.validateOnChange := validateOnChange;
      this.validateOnBlur := validateOnBlur;
      errors := map[];
      isValidating := false;
      hasBeenValidated := false;
    }

    /** `hasErrors`: some field holds a message. */
    predicate HasErrors()
      reads this
    {
      exists f :: f in errors && errors[f].Some?
    }

    /** `validateField`: runs the field's rules in order and records the first failure, or clears the error. */
    method ValidateField(field: string, data: FormData) returns (ok: bool)
      modifies this
      ensures errors == old(errors)[field := FieldError(rules, field, data)]
      ensures ok <==> FieldError(rules, field, data).None?
      ensures isValidating == old(isValidating) && hasBeenValidated == old(hasBeenValidated)
    {
      if field !in rules {
        errors := errors[field := None];
        return true;
      }
      var fieldRules := rules[field];
      var v := Lookup(data, field);
      var i := 0;
      while i < |fieldRules|
        invariant 0 <= i <= |fieldRules|
        invariant FirstFailure(fieldRules[i..], v, data) == FirstFailure(fieldRules, v, data)
        invariant errors == old(errors)
        invariant isValidating == old(isValidating) && hasBeenValidated == old(hasBeenValidated)
      {
        var result := Check(fieldRules[i], v, data);
        if result.Some? {
          errors := errors[field := result];
          return false;
        }
        assert fieldRules[i..][1..] == fieldRules[i + 1..];
        i := i + 1;
      }
      errors := errors[field := None];
      return true;
    }

    /** `validate`: validates every field with rules, without stopping at the first invalid one. */
    method Validate(data: FormData) returns (valid: bool)
      requires FieldsListed()
      modifies this
      ensures errors == old(errors) + FieldErrors(rules, fields, data)
      ensures valid <==> forall f :: f in rules ==> FieldError(rules, f, data).None?
      ensures hasBeenValidated && !isValidating
    {
      isValidating := true;
      hasBeenValidated := true;
      valid := true;
      var i := 0;
      while i < |fields|
        invariant 0 <= i <= |fields|
        invariant isValidating && hasBeenValidated
        invariant errors == old(errors) + FieldErrors(rules, fields[..i], data)
        invariant valid <==> forall j :: 0 <= j < i ==> FieldError(rules, fields[j], data).None?
      {
        var ok := ValidateField(fields[i], data);
        AllPassStep(rules, fields, i, data, valid);
        valid := valid && ok;
        ErrorsStep(old(errors), rules, fields, i, data);
        i := i + 1;
      }
      assert fields[..i] == fields;
      isValidating := false;
      ListedFieldsValid(rules, fields, data);
    }

    /** `clearErrors`: every recorded error becomes undefined and the form counts as not yet validated. */
    method ClearErrors()
      modifies this
      ensures errors.Keys == old(errors).Keys && forall f :: f in errors ==> errors[f].None?
      ensures !HasErrors() && !hasBeenValidated && isValidating == old(isValidating)
    {
      errors := map f | f in errors :: None;
      hasBeenValidated := false;
    }

    /** `clearFieldError`. */
    method ClearFieldError(field: string)
      modifies this
      ensures errors == old(errors)[field := None]
      ensures hasBeenValidated == old(hasBeenValidated) && isValidating == old(isValidating)
    {
      errors := errors[field := None];
    }

    /** `setError`: a server-side message for one field. */
    method SetError(field: string, message: string)
      modifies this
      ensures errors == old(errors)[field := Some(message)] && HasErrors()
      ensures hasBeenValidated == old(hasBeenValidated) && isValidating == old(isValidating)
    {
      errors := errors[field := Some(message)];
      assert field in errors && errors[field].Some?;
    }

    /** `setErrors`: every field of the server's errors gets its (first) message. */
    method SetErrors(server: map<string, ServerMessage>)
      modifies this
      ensures errors == old(errors) + map f | f in server :: Stored(server[f])
      ensures (exists f :: f in server && server[f].One?) ==> HasErrors()
      ensures hasBeenValidated == old(hasBeenValidated) && isValidating == old(isValidating)
    {
      errors := errors + map f | f in server :: Stored(server[f]);
      if f :| f in server && server[f].One? {
        assert f in errors && errors[f].Some?;
      }
    }

    /** `onFieldChange`: revalidates only once the whole form has been validated, and only when enabled. */
    method OnFieldChange(field: string, data: FormData)
      modifies this
      ensures validateOnChange && old(hasBeenValidated) ==> errors == old(errors)[field := FieldError(rules, field, data)]
      ensures !(validateOnChange && old(hasBeenValidated)) ==> errors == old(errors)
      ensures hasBeenValidated == old(hasBeenValidated) && isValidating == old(isValidating)
    {
      if validateOnChange && hasBeenValidated {
        var _ := ValidateField(field, data);
      }
    }

    /** `onFieldBlur`: revalidates whenever enabled. */
    method OnFieldBlur(field: string, data: FormData)
      modifies this
      ensures validateOnBlur ==> errors == old(errors)[field := FieldError(rules, field, data)]
      ensures !validateOnBlur ==> errors == old(errors)
      ensures hasBeenValidated == old(hasBeenValidated) && isValidating == old(isValidating)
    {
      if validateOnBlur {
        var _ := ValidateField(field, data);
      }
    }
  }

  /**
   * After a successful `validate`, no field with rules holds an error, and
   * clearing the errors afterwards leaves none at all.
   */
  lemma ValidFormHasNoRuleErrors(rules: map<string, seq<Rule>>, fields: seq<string>, data: FormData,
                                 before: map<string, Option<string>>, f: string)
    requires forall g :: g in rules <==> g in fields
    requires forall g :: g in rules ==> FieldError(rules, g, data).None?
    requires f in rules
    ensures f in before + FieldErrors(rules, fields, data)
    ensures (before + FieldErrors(rules, fields, data))[f].None?
  {
    var i :| 0 <= i < |fields| && fields[i] == f;
    assert f in FieldErrors(rules, fields, data);
  }
}
