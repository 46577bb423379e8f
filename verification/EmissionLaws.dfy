/** Why a payload is refused (packages/uc06/uc06/application/boundary.py). */
module EmissionLaws {
  import opened Emission
  import Text

  // ----- suppression keys in any spelling -----

  /** `c` is the letter `w` in either case, or the Kelvin sign for `k`, or `w` itself. */
  predicate Letter(c: char, w: char) {
    || (c == w && !('A' <= c <= 'Z') && c != '\U{212A}')
    || ('a' <= w <= 'z' && 'A' <= c <= 'Z' && c as int - 'A' as int == w as int - 'a' as int)
    || (c == '\U{212A}' && w == 'k')
  }

  predicate Spells(key: string, word: string) {
    |key| == |word| && forall i | 0 <= i < |key| :: Letter(key[i], word[i])
  }

  lemma {:induction false} LowerKeyIff(key: string, word: string)
    ensures LowerKey(key) == word <==> Spells(key, word)
  {
    if key != "" && word != "" {
      LowerKeyIff(key[1..], word[1..]);
      LetterIff(key[0], word[0]);
      assert key == [key[0]] + key[1..] && word == [word[0]] + word[1..];
    }
  }

  lemma LetterIff(c: char, w: char)
    ensures LowerChar(c) == w <==> Letter(c, w)
  {
  }

  /** Some key of the payload is a suppression key, however its letters are capitalised. */
  ghost predicate Suppressing(p: Payload) {
    exists key, word | key in p && word in SUPPRESSION_KEYS :: Spells(key, word)
  }

  lemma SuppressingIff(p: Payload)
    ensures Suppressing(p) <==> exists key | key in p :: LowerKey(key) in SUPPRESSION_KEYS
  {
    if key, word :| key in p && word in SUPPRESSION_KEYS && Spells(key, word) {
      LowerKeyIff(key, word);
    }
    if key :| key in p && LowerKey(key) in SUPPRESSION_KEYS {
      LowerKeyIff(key, LowerKey(key));
    }
  }

  // ----- reasons -----

  predicate Carries(p: Payload, text: string) {
    FIELD in p && p[FIELD] == Str(text)
  }

  /** The text is the shortened wording, give or take white space around it. */
  predicate Shortened(p: Payload) {
    FIELD in p && p[FIELD].Str? && Text.Strip(p[FIELD].text) == SHORTENED
  }

  /** When a payload is refused for a reason. */
  ghost predicate RefusedFor(p: Payload, reason: Reason) {
    match reason
    case SuppressionKey => Suppressing(p)
    case Absent => !Suppressing(p) && FIELD !in p
    case WrongType => !Suppressing(p) && FIELD in p && !p[FIELD].Str?
    case EmptyText => !Suppressing(p) && Carries(p, "")
    case ShortenedVariant => !Suppressing(p) && !Carries(p, "") && !Carries(p, CANONICAL) && Shortened(p)
    case Altered =>
      !Suppressing(p) && FIELD in p && p[FIELD].Str? && !Carries(p, "") && !Carries(p, CANONICAL) && !Shortened(p)
  }

  /** Each reason is reported exactly when it applies. */
  lemma RefusedIff(p: Payload, reason: Reason)
    ensures Refused(p, reason) <==> RefusedFor(p, reason)
  {
    SuppressingIff(p);
    if !Suppressing(p) && FIELD in p && p[FIELD].Str? { TextRefusedIff(p, reason); }
  }

  predicate Refused(p: Payload, reason: Reason) {
    CheckPayload(p).Some? && CheckPayload(p).value.reason == reason
  }

  lemma TextRefusedIff(p: Payload, reason: Reason)
    requires !Suppressing(p) && FIELD in p && p[FIELD].Str?
    ensures Refused(p, reason) <==> RefusedFor(p, reason)
  {
    SuppressingIff(p);
  }

  /** A refused payload counts as having lost its disclaimer exactly when there is no text under the field, or an
      empty one, and no suppression key; otherwise as having had it altered. */
  lemma LostOrAltered(p: Payload)
    requires CheckPayload(p).Some?
    ensures KindFor(CheckPayload(p).value) == InternalDisclaimerAbsent
       <==> !Suppressing(p) && (FIELD !in p || !p[FIELD].Str? || p[FIELD].text == "")
    ensures KindFor(CheckPayload(p).value) == InternalDisclaimerAbsent
         || KindFor(CheckPayload(p).value) == InternalDisclaimerAltered
  {
    SuppressingIff(p);
    if FIELD in p && p[FIELD].Str? && !Suppressing(p) { TextLostIff(p, p[FIELD].text); }
  }

  lemma TextLostIff(p: Payload, text: string)
    requires !Suppressing(p) && Carries(p, text) && CheckPayload(p).Some?
    ensures CheckPayload(p).value.observedPresent <==> text != ""
  {
    SuppressingIff(p);
  }
}
