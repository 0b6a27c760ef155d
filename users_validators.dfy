/** users/validators.py: the username validator. REGEX_USERNAME is a character
    class whose definition is not part of this model; it is the parameter
    `allowed`, the set of characters the class matches, so that removing every
    match of it is removing every allowed character. */
module UsersValidators {
  import opened Wrappers
  import opened Collections

  const ErrorPrefix: string := "Имя не должно содержать: "

  /** What `re.sub(REGEX_USERNAME, '', value)` leaves: the characters of
      `value` outside the class, in their original order. */
  function Leftover(value: string, allowed: set<char>): (r: string)
    ensures |r| <= |value|
    ensures forall c :: c in r <==> c in value && c !in allowed
  {
    if value == [] then []
    else (if value[0] in allowed then [] else [value[0]]) + Leftover(value[1..], allowed)
  }

  /** The error raised: it carries the set of offending characters. */
  datatype UsernameError = UsernameError(offending: set<char>)

  /** `validator_username`: rejects exactly the names with a character outside
      the class; the error names each such character; an accepted name comes
      back unchanged. */
  function ValidatorUsername(value: string, allowed: set<char>): (r: Result<string, UsernameError>)
    ensures r.Success? <==> forall i :: 0 <= i < |value| ==> value[i] in allowed
    ensures r.Success? ==> r.value == value
    ensures r.Failure? ==> r.error.offending == (set c | c in value && c !in allowed)
    ensures r.Failure? ==> r.error.offending != {}
  {
    var left := Leftover(value, allowed);
    assert forall i :: 0 <= i < |value| ==> value[i] in value;
    var offending := set c | c in left;
    assert left != [] ==> left[0] in offending;
    if left != [] then Failure(UsernameError(offending)) else Success(value)
  }

  /** `" ".join(chars)`: the characters separated by single spaces. */
  function JoinWithSpaces(chars: seq<char>): (r: string)
    ensures chars == [] ==> r == []
    ensures chars != [] ==> |r| == 2 * |chars| - 1
    ensures forall i :: 0 <= i < |r| ==> r[i] == if i % 2 == 0 then chars[i / 2] else ' '
  {
    if |chars| <= 1 then chars else [chars[0], ' '] + JoinWithSpaces(chars[1..])
  }

  /** The message of the raised error, for a given iteration order of the set:
      the prefix, then each offending character once, spaces between them. */
  function ErrorMessage(e: UsernameError, order: seq<char>): (m: string)
    requires Enumerates(order, e.offending)
    ensures |m| == |ErrorPrefix| + (if order == [] then 0 else 2 * |order| - 1)
    ensures m[..|ErrorPrefix|] == ErrorPrefix
    ensures forall i :: 0 <= i < |m| - |ErrorPrefix| ==>
      m[|ErrorPrefix| + i] == if i % 2 == 0 then order[i / 2] else ' '
  {
    ErrorPrefix + JoinWithSpaces(order)
  }

  /** A rejected name's message lists exactly as many characters as it has
      distinct offending characters. */
  lemma {:induction false} MessageCountsOffending(value: string, allowed: set<char>, order: seq<char>)
    requires ValidatorUsername(value, allowed).Failure?
    requires Enumerates(order, ValidatorUsername(value, allowed).error.offending)
    ensures |order| == |ValidatorUsername(value, allowed).error.offending|
  {
    EnumerationCard(order, ValidatorUsername(value, allowed).error.offending);
  }

  /** The empty name is accepted. */
  lemma EmptyNameAccepted(allowed: set<char>)
    ensures ValidatorUsername("", allowed) == Success("")
  {
  }

  /** Acceptance, and the error, depend only on which characters occur in the
      name, not on their order or multiplicity. */
  lemma SameCharactersSameVerdict(a: string, b: string, allowed: set<char>)
    requires forall c :: c in a <==> c in b
    ensures ValidatorUsername(a, allowed).Success? <==> ValidatorUsername(b, allowed).Success?
    ensures ValidatorUsername(a, allowed).Failure? ==> ValidatorUsername(a, allowed).error == ValidatorUsername(b, allowed).error
  {
  }

  /** Two usernames: with a class holding letters, digits and `@+-._`,
      "john_doe-99" passes and "john doe!" is rejected for exactly the space
      and the exclamation mark. */
  lemma UsernameExamples(allowed: set<char>)
    requires forall c :: c in "john_doe-99" ==> c in allowed
    requires ' ' !in allowed && '!' !in allowed
    requires forall c :: c in "johndoe" ==> c in allowed
    ensures ValidatorUsername("john_doe-99", allowed) == Success("john_doe-99")
    ensures ValidatorUsername("john doe!", allowed) == Failure(UsernameError({' ', '!'}))
  {
    var offending := set c | c in "john doe!" && c !in allowed;
    assert offending == {' ', '!'} by {
      forall c | c in "john doe!" ensures c in allowed || c == ' ' || c == '!' {
        assert c in "johndoe" || c == ' ' || c == '!';
      }
      assert "john doe!"[4] == ' ' && "john doe!"[8] == '!';
    }
  }
}
