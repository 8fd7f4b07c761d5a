/**
 * Text validation and moderation of a submitted gratitude message
 * (lib/moderation.ts): a length check, a token pass and a phrase pass
 * against a fixed list of forbidden Russian words.
 */
module Moderation {
  import opened Strings

  /** The forbidden-word list, in source order (duplicates included): the
      three commented sections of the source, one group per source line. */
  const ForbiddenWords: seq<string> := Profanity + Insults + NegativeWords

  /** The obscenities section. */
  const Profanity: seq<string> :=
      ["блять", "блядь", "бля", "бляд", "блят"]
    + ["хуй", "хуйня", "хуе", "хуё", "хуев", "хуевый"]
    + ["пизда", "пиздец", "пизд", "пиздюк", "пиздюля"]
    + ["ебан", "ебать", "ебал", "ебат", "ебану", "ебануть"]
    + ["ебло", "ебанько", "ебу", "ебаш", "ебаш"]
    + ["сука", "суки", "сучара", "сучий"]
    + ["мудак", "мудачок", "мудила"]
    + ["гандон", "гондон"]
    + ["залупа", "залуп"]
    + ["дроч", "дрочить"]
    + ["шлюха", "шлюх"]
    + ["блядина", "бляди"]

  /** The rude words and insults section. */
  const Insults: seq<string> :=
      ["жопа", "жоп", "жопка", "жопный"]
    + ["дурак", "дура", "дурачок", "дурацкий"]
    + ["идиот", "идиотка", "идиотский"]
    + ["тупой", "тупая", "тупой", "тупость"]
    + ["дебил", "дебилка", "дебильный"]
    + ["кретин", "кретинка"]
    + ["придурок", "придурочный"]
    + ["мразь", "мразота"]
    + ["гад", "гадина"]
    + ["сволочь", "сволочи"]
    + ["подонок", "подонки"]
    + ["ублюдок", "ублюдки"]
    + ["скотина", "скотины"]

  /** The section of negative words unfit for a message of thanks. */
  const NegativeWords: seq<string> :=
      ["ненавижу", "ненависть"]
    + ["убить", "убийство"]
    + ["смерть", "умереть"]
    + ["плохо", "плохой", "плохая"]
    + ["гадость", "гадкий"]

  /** The one reason every moderation rejection carries. */
  const ForbiddenReason: string := "Текст содержит недопустимые слова"
  const EmptyReason: string := "Текст не может быть пустым"
  const MessageMaxLength: nat := 300

  function TooLongReason(maxLength: nat): string {
    "Текст не может быть длиннее " + NatToDecimal(maxLength) + " символов"
  }

  /** Outcome of moderateText: `{isValid: true, moderatedText}` or `{isValid: false, reason}`. */
  datatype Moderation = Accepted(moderatedText: string) | Rejected(reason: string)

  /** Outcome of validateTextLength and validateMessage: `{isValid: true}` or `{isValid: false, reason}`. */
  datatype Verdict = Valid | Invalid(reason: string)

  /** The characters of the class `[.,!?;:()\-_\[\]{}'"]`. */
  predicate IsPunctuation(c: char) {
    || c == '.' || c == ',' || c == '!' || c == '?' || c == ';' || c == ':'
    || c == '(' || c == ')' || c == '-' || c == '_' || c == '[' || c == ']'
    || c == '{' || c == '}' || c == '\'' || c == '"'
  }

  /** Every punctuation character replaced by a space, everything else kept in place. */
  function Clean(s: string): (r: string)
    ensures |r| == |s|
    ensures forall i :: 0 <= i < |s| ==> !IsSpace(r[i]) ==> r[i] == s[i]
    ensures forall i :: 0 <= i < |s| ==>
      && (IsPunctuation(s[i]) ==> r[i] == ' ')
      && (!IsPunctuation(s[i]) ==> r[i] == s[i])
  {
    seq(|s|, i requires 0 <= i < |s| => if IsPunctuation(s[i]) then ' ' else s[i])
  }

  /** The inner loop of the token pass: `word` contains, or is contained in,
      one of `forbidden`, tried in order. */
  predicate WordHit(word: string, forbidden: seq<string>)
    decreases |forbidden|
  {
    forbidden != [] &&
    (Includes(word, forbidden[0]) || Includes(forbidden[0], word) || WordHit(word, forbidden[1..]))
  }

  /** The token pass: the outer loop over the tokens, each tried against every forbidden word. */
  predicate TokenHit(words: seq<string>, forbidden: seq<string>)
    decreases |words|
  {
    words != [] && (WordHit(words[0], forbidden) || TokenHit(words[1..], forbidden))
  }

  /** The phrase pass: the loop over the forbidden words, each looked up in the lower-cased text. */
  predicate PhraseHit(lower: string, forbidden: seq<string>)
    decreases |forbidden|
  {
    forbidden != [] && (Includes(lower, forbidden[0]) || PhraseHit(lower, forbidden[1..]))
  }

  /** Some token contains, or is contained in, some forbidden word. */
  ghost predicate TokenMatches(words: seq<string>, forbidden: seq<string>) {
    exists w, f :: w in words && f in forbidden && (Includes(w, f) || Includes(f, w))
  }

  /** Some token is a substring of a forbidden word. */
  ghost predicate TokenInsideForbidden(words: seq<string>, forbidden: seq<string>) {
    exists w, f :: w in words && f in forbidden && Includes(f, w)
  }

  /** Some forbidden word occurs in `lower`. */
  ghost predicate ContainsForbidden(lower: string, forbidden: seq<string>) {
    exists f :: f in forbidden && Includes(lower, f)
  }

  lemma {:induction false} WordHitIff(word: string, forbidden: seq<string>)
    ensures WordHit(word, forbidden) <==>
      exists f :: f in forbidden && (Includes(word, f) || Includes(f, word))
    decreases |forbidden|
  {
    if forbidden != [] {
      var head, tail := forbidden[0], forbidden[1..];
      WordHitIff(word, tail);
      assert forall f :: f in forbidden <==> f == head || f in tail;
      if Includes(word, head) || Includes(head, word) {
        assert head in forbidden;
      } else if WordHit(word, tail) {
        var f :| f in tail && (Includes(word, f) || Includes(f, word));
        assert f in forbidden;
      }
      if f :| f in forbidden && (Includes(word, f) || Includes(f, word)) {
        assert f == head || f in tail;
      }
    }
  }

  /** The two nested loops of the token pass hit exactly when some token and
      some forbidden word contain one another. */
  lemma {:induction false} TokenHitIff(words: seq<string>, forbidden: seq<string>)
    ensures TokenHit(words, forbidden) <==> TokenMatches(words, forbidden)
    decreases |words|
  {
    if words != [] {
      TokenHitIff(words[1..], forbidden);
      WordHitIff(words[0], forbidden);
      assert forall w :: w in words <==> w == words[0] || w in words[1..];
    }
  }

  /** The loop of the phrase pass hits exactly when some forbidden word occurs in the text. */
  lemma {:induction false} PhraseHitIff(lower: string, forbidden: seq<string>)
    ensures PhraseHit(lower, forbidden) <==> ContainsForbidden(lower, forbidden)
    decreases |forbidden|
  {
    if forbidden != [] {
      PhraseHitIff(lower, forbidden[1..]);
      assert forall f :: f in forbidden <==> f == forbidden[0] || f in forbidden[1..];
    }
  }

  /** `moderateText`: the token pass over the punctuation-free tokens of the
      lower-cased text, then the phrase pass over the lower-cased text. An
      accepted text is returned unmodified; every rejection has the same reason. */
  function ModerateText(text: string): (r: Moderation)
    ensures r.Accepted? ==> r.moderatedText == text
    ensures r.Rejected? ==> r.reason == ForbiddenReason
  {
    var lower := ToLower(text);
    if TokenHit(Words(Clean(lower)), ForbiddenWords) then Rejected(ForbiddenReason)
    else if PhraseHit(lower, ForbiddenWords) then Rejected(ForbiddenReason)
    else Accepted(text)
  }

  /** A token of the cleaned text sits, character for character, in the text itself. */
  lemma {:induction false} TokenContainmentSubsumed(lower: string, w: string, f: string)
    requires w in Words(Clean(lower)) && Includes(w, f)
    ensures Includes(lower, f)
  {
    var clean := Clean(lower);
    var k :| 0 <= k < |Words(clean)| && Words(clean)[k] == w;
    assert NoSpace(w) && Includes(clean, w);
    var i :| OccursAt(clean, w, i);
    var j :| OccursAt(w, f, j);
    forall m | 0 <= m < |f|
      ensures lower[i + j + m] == f[m]
    {
      assert w[j + m] == f[m];
      assert clean[i + j + m] == w[j + m];
    }
    assert lower[i + j..i + j + |f|] == f;
    assert OccursAt(lower, f, i + j);
  }

  /** The token pass hits only when the phrase pass would, or a token is
      a substring of a forbidden word: its own containment test adds nothing. */
  lemma TokenPassSubsumed(lower: string, forbidden: seq<string>)
    ensures TokenMatches(Words(Clean(lower)), forbidden) ==>
      ContainsForbidden(lower, forbidden) || TokenInsideForbidden(Words(Clean(lower)), forbidden)
  {
    var words := Words(Clean(lower));
    if TokenMatches(words, forbidden) {
      var w, f :| w in words && f in forbidden && (Includes(w, f) || Includes(f, w));
      if Includes(w, f) {
        TokenContainmentSubsumed(lower, w, f);
      }
    }
  }

  /** The moderation verdict: a text is rejected exactly when its lower-cased
      form contains a forbidden word, or one of its tokens is a substring of a
      forbidden word. */
  lemma ModerationVerdict(text: string)
    ensures ModerateText(text).Rejected? <==>
      ContainsForbidden(ToLower(text), ForbiddenWords) ||
      TokenInsideForbidden(Words(Clean(ToLower(text))), ForbiddenWords)
  {
    var lower := ToLower(text);
    var words := Words(Clean(lower));
    TokenHitIff(words, ForbiddenWords);
    PhraseHitIff(lower, ForbiddenWords);
    TokenPassSubsumed(lower, ForbiddenWords);
    if TokenInsideForbidden(words, ForbiddenWords) {
      var w, f :| w in words && f in ForbiddenWords && Includes(f, w);
      assert TokenMatches(words, ForbiddenWords);
    }
  }

  /** A token that is a substring of a forbidden word ("и" of "идиот", "за" of
      "залупа") gets the text rejected, whatever else it says. */
  lemma ShortTokenRejected(text: string, w: string, f: string)
    requires w in Words(Clean(ToLower(text))) && f in ForbiddenWords && Includes(f, w)
    ensures ModerateText(text) == Rejected(ForbiddenReason)
  {
    var words := Words(Clean(ToLower(text)));
    TokenHitIff(words, ForbiddenWords);
    assert TokenMatches(words, ForbiddenWords);
  }

  /** A forbidden word anywhere in the lower-cased text gets it rejected.
      With this list it always lies inside one token (`ForbiddenWordInsideToken`),
      so it is the token pass that rejects it. */
  lemma ForbiddenSubstringRejected(text: string, f: string)
    requires f in ForbiddenWords && Includes(ToLower(text), f)
    ensures ModerateText(text) == Rejected(ForbiddenReason)
  {
    PhraseHitIff(ToLower(text), ForbiddenWords);
    assert ContainsForbidden(ToLower(text), ForbiddenWords);
  }

  /** The letters the forbidden words are written in: а–я and ё. */
  predicate IsCyrillicLower(c: char) {
    ('а' <= c <= 'я') || c == 'ё'
  }

  /** A non-empty run of lower-case Cyrillic letters. */
  predicate CyrillicWord(f: string) {
    f != [] && forall k :: 0 <= k < |f| ==> IsCyrillicLower(f[k])
  }

  /** Every word of `ws` is a Cyrillic word. */
  ghost predicate CyrillicWords(ws: seq<string>) {
    forall i :: 0 <= i < |ws| ==> CyrillicWord(ws[i])
  }

  /** Each section is checked in halves, which keeps each proof small. */
  lemma ProfanityHeadCyrillic()
    ensures forall i :: 0 <= i < 22 ==> CyrillicWord(Profanity[i])
  {
  }

  lemma ProfanityTailCyrillic()
    ensures forall i :: 22 <= i < |Profanity| ==> CyrillicWord(Profanity[i])
  {
  }

  lemma InsultsHeadCyrillic()
    ensures forall i :: 0 <= i < 15 ==> CyrillicWord(Insults[i])
  {
  }

  lemma InsultsTailCyrillic()
    ensures forall i :: 15 <= i < |Insults| ==> CyrillicWord(Insults[i])
  {
  }

  lemma NegativeWordsCyrillic()
    ensures CyrillicWords(NegativeWords)
  {
  }

  /** Every forbidden word is a non-empty run of lower-case Cyrillic letters,
      so none holds whitespace or punctuation. */
  lemma ForbiddenWordsCyrillic()
    ensures CyrillicWords(ForbiddenWords)
  {
    ProfanityHeadCyrillic();
    ProfanityTailCyrillic();
    InsultsHeadCyrillic();
    InsultsTailCyrillic();
    NegativeWordsCyrillic();
    assert CyrillicWords(Profanity) && CyrillicWords(Insults);
  }

  /** A forbidden word in the lower-cased text lies inside one token of its
      cleaned form: neither whitespace nor punctuation can split it. */
  lemma ForbiddenWordInsideToken(lower: string, f: string)
    requires f in ForbiddenWords && Includes(lower, f)
    ensures exists w :: w in Words(Clean(lower)) && Includes(w, f)
  {
    ForbiddenWordsCyrillic();
    var n :| 0 <= n < |ForbiddenWords| && ForbiddenWords[n] == f;
    assert CyrillicWord(f);
    var clean := Clean(lower);
    var i :| OccursAt(lower, f, i);
    forall k | 0 <= k < |f|
      ensures clean[i + k] == f[k] && !IsSpace(f[k])
    {
      assert lower[i + k] == f[k];
      assert IsCyrillicLower(f[k]);
    }
    assert clean[i..i + |f|] == f;
    InsideOneWord(clean, f, i);
  }

  /** The phrase pass never decides: a text it would reject has already been
      rejected by the token pass. */
  lemma PhrasePassDead(lower: string)
    ensures PhraseHit(lower, ForbiddenWords) ==> TokenHit(Words(Clean(lower)), ForbiddenWords)
  {
    var words := Words(Clean(lower));
    PhraseHitIff(lower, ForbiddenWords);
    TokenHitIff(words, ForbiddenWords);
    if PhraseHit(lower, ForbiddenWords) {
      var f :| f in ForbiddenWords && Includes(lower, f);
      ForbiddenWordInsideToken(lower, f);
      var w :| w in words && Includes(w, f);
      assert TokenMatches(words, ForbiddenWords);
    }
  }

  /** With this list, the verdict is the token pass's alone: a text is rejected
      exactly when one of its tokens and a forbidden word contain one another. */
  lemma TokenVerdict(text: string)
    ensures ModerateText(text).Rejected? <==> TokenMatches(Words(Clean(ToLower(text))), ForbiddenWords)
  {
    PhrasePassDead(ToLower(text));
    TokenHitIff(Words(Clean(ToLower(text))), ForbiddenWords);
  }

  /** `validateTextLength`: a blank text is refused as empty before its length
      is looked at; a text longer than `maxLength` is refused; one of exactly
      `maxLength` characters passes. */
  function ValidateTextLength(text: string, maxLength: nat): (r: Verdict)
    ensures r.Valid? <==> !Blank(text) && |text| <= maxLength
    ensures Blank(text) ==> r == Invalid(EmptyReason)
    ensures !Blank(text) && |text| > maxLength ==> r == Invalid(TooLongReason(maxLength))
  {
    if Trim(text) == [] then Invalid(EmptyReason)
    else if |text| > maxLength then Invalid(TooLongReason(maxLength))
    else Valid
  }

  /** `validateMessage`: the length check with limit 300, then moderation. */
  function ValidateMessage(text: string): (r: Verdict)
    ensures r.Valid? <==> !Blank(text) && |text| <= MessageMaxLength && ModerateText(text).Accepted?
    ensures ValidateTextLength(text, MessageMaxLength).Invalid? ==> r == ValidateTextLength(text, MessageMaxLength)
    ensures ValidateTextLength(text, MessageMaxLength).Valid? && r.Invalid? ==> r.reason == ForbiddenReason
  {
    match ValidateTextLength(text, MessageMaxLength)
    case Invalid(reason) => Invalid(reason)
    case Valid =>
      match ModerateText(text)
      case Rejected(reason) => Invalid(reason)
      case Accepted(_) => Valid
  }

  lemma TooLongReasonText()
    ensures TooLongReason(MessageMaxLength) == "Текст не может быть длиннее 300 символов"
  {
    assert NatToDecimal(300) == "300";
  }

  /** Every reason `validateMessage` gives is non-empty. */
  lemma ValidateMessageReasonNonEmpty(text: string)
    ensures ValidateMessage(text).Invalid? ==> ValidateMessage(text).reason != ""
  {
  }

  lemma ZaInsideForbidden()
    ensures "залупа" in ForbiddenWords && Includes("залупа", "за")
  {
    assert OccursAt("залупа", "за", 0);
  }

  /** Lower-casing and punctuation removal keep a whitespace character as it is. */
  lemma CleanLowerKeepsSpace(text: string, i: nat)
    requires i < |text| && IsSpace(text[i])
    ensures IsSpace(Clean(ToLower(text))[i])
  {
    var lower := ToLower(text);
    assert lower[i] == LowerChar(text[i]) == text[i];
    assert !IsPunctuation(lower[i]);
  }

  /** Lower-casing and punctuation removal turn "За" or "за" into "за". */
  lemma CleanLowerZa(text: string, k: nat)
    requires k + 2 <= |text|
    requires (text[k] == 'З' || text[k] == 'з') && text[k + 1] == 'а'
    ensures Clean(ToLower(text))[k..k + 2] == "за"
  {
    var lower := ToLower(text);
    var clean := Clean(lower);
    assert lower[k] == LowerChar(text[k]) == 'з';
    assert lower[k + 1] == LowerChar(text[k + 1]) == 'а';
    assert clean[k] == 'з' && clean[k + 1] == 'а';
  }

  /** Lower-casing and punctuation removal keep a standalone "за" a token. */
  lemma ZaToken(text: string, k: nat)
    requires k + 2 <= |text|
    requires (text[k] == 'З' || text[k] == 'з') && text[k + 1] == 'а'
    requires k == 0 || IsSpace(text[k - 1])
    requires k + 2 == |text| || IsSpace(text[k + 2])
    ensures "за" in Words(Clean(ToLower(text)))
  {
    CleanLowerZa(text, k);
    if k > 0 {
      CleanLowerKeepsSpace(text, k - 1);
    }
    if k + 2 < |text| {
      CleanLowerKeepsSpace(text, k + 2);
    }
    WordAt(Clean(ToLower(text)), k, "за");
  }

  /** A text holding the word "за" (or "За") on its own, bounded by
      whitespace or the ends of the text, is refused by moderation, since
      "за" is a substring of "залупа". */
  lemma StandaloneZaRejected(text: string, k: nat)
    requires k + 2 <= |text| <= MessageMaxLength
    requires (text[k] == 'З' || text[k] == 'з') && text[k + 1] == 'а'
    requires k == 0 || IsSpace(text[k - 1])
    requires k + 2 == |text| || IsSpace(text[k + 2])
    ensures ValidateMessage(text) == Invalid(ForbiddenReason)
  {
    ZaToken(text, k);
    ZaInsideForbidden();
    ShortTokenRejected(text, "за", "залупа");
    assert !IsSpace(text[k]);
  }

  /** "Спасибо за родителей", a thank-you for one's parents, is refused. */
  lemma ThanksForParentsRejected()
    ensures ValidateMessage("Спасибо за родителей") == Invalid(ForbiddenReason)
  {
    var text := "Спасибо за родителей";
    assert text[7] == ' ' && text[8] == 'з' && text[9] == 'а' && text[10] == ' ';
    StandaloneZaRejected(text, 8);
  }

  lemma DurakForbidden()
    ensures "дурак" in ForbiddenWords
  {
    assert ForbiddenWords[48] == "дурак";
  }

  /** The word "дурак" on its own is refused. */
  lemma ForbiddenWordAloneRejected()
    ensures ValidateMessage("дурак") == Invalid(ForbiddenReason)
  {
    var text := "дурак";
    DurakForbidden();
    ToLowerOfLower(text);
    assert OccursAt(text, text, 0);
    ForbiddenSubstringRejected(text, text);
    assert !IsSpace(text[0]);
  }
}
