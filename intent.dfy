/**
 * Booking-intent detection: the utterance is lower-cased and searched for
 * any of four keywords as a plain substring.
 */
module Intent {
  import opened Options

  const BookingKeywords: seq<string> := ["book", "appointment", "schedule", "reserve"]

  /** `str.lower()` on ASCII letters. */
  function LowerChar(c: char): char {
    if 'A' <= c <= 'Z' then (c as int - 'A' as int + 'a' as int) as char else c
  }

  /** Lower-casing leaves no ASCII capital and changes nothing else. */
  function Lower(s: string): (r: string)
    ensures |r| == |s|
    ensures forall k :: 0 <= k < |r| ==> !('A' <= r[k] <= 'Z')
    ensures forall k :: 0 <= k < |s| && !('A' <= s[k] <= 'Z') ==> r[k] == s[k]
  {
    seq(|s|, k requires 0 <= k < |s| => LowerChar(s[k]))
  }

  /** Lower-casing twice is lower-casing once. */
  lemma LowerIdempotent(s: string)
    ensures Lower(Lower(s)) == Lower(s)
  {
  }

  /** `word` occurs in `text` starting at position `i`. */
  predicate OccursAt(text: string, word: string, i: int) {
    0 <= i && i + |word| <= |text| && text[i..i + |word|] == word
  }

  /** Python's `word in text` on strings. */
  predicate Contains(text: string, word: string) {
    if word <= text then true
    else if text == [] then false
    else Contains(text[1..], word)
  }

  /** `Contains` is substring search: it holds iff the word occurs at some position. */
  lemma {:induction false} ContainsIffOccurs(text: string, word: string)
    ensures Contains(text, word) <==> exists i :: OccursAt(text, word, i)
  {
    if word <= text {
      assert OccursAt(text, word, 0);
    } else if text == [] {
    } else {
      ContainsIffOccurs(text[1..], word);
      if exists i :: OccursAt(text[1..], word, i) {
        var i :| OccursAt(text[1..], word, i);
        assert text[1..][i..i + |word|] == text[i + 1..i + 1 + |word|];
        assert OccursAt(text, word, i + 1);
      }
      if exists i :: OccursAt(text, word, i) {
        var i :| OccursAt(text, word, i);
        if i != 0 {
          assert text[1..][i - 1..i - 1 + |word|] == text[i..i + |word|];
          assert OccursAt(text[1..], word, i - 1);
        }
      }
    }
  }

  /** `any(keyword in speech.lower() for keyword in booking_keywords)`. */
  predicate HasBookingIntent(speech: string) {
    exists k :: k in BookingKeywords && Contains(Lower(speech), k)
  }

  datatype SpeechIntent = Silent | Booking | Other

  /** A missing or empty utterance is silence; otherwise keyword match decides. */
  function ClassifySpeech(speech: Option<string>): SpeechIntent {
    if speech.None? || speech.value == "" then Silent
    else if HasBookingIntent(speech.value) then Booking
    else Other
  }

  /**
   * Silence iff no text; booking iff there is text and one of the keywords
   * occurs somewhere in its lower-cased form; anything else is other.
   */
  lemma IntentRouting(speech: Option<string>)
    ensures ClassifySpeech(speech) == Silent <==> speech.None? || speech.value == ""
    ensures ClassifySpeech(speech) == Booking <==>
              speech.Some? && speech.value != "" &&
              exists k, i :: k in BookingKeywords && OccursAt(Lower(speech.value), k, i)
    ensures ClassifySpeech(speech) == Other <==>
              speech.Some? && speech.value != "" &&
              forall k, i :: k in BookingKeywords ==> !OccursAt(Lower(speech.value), k, i)
  {
    if speech.Some? {
      forall k | k in BookingKeywords {
        ContainsIffOccurs(Lower(speech.value), k);
      }
    }
  }

  /** Classification ignores letter case. */
  lemma ClassificationIgnoresCase(s: string)
    ensures ClassifySpeech(Some(s)) == ClassifySpeech(Some(Lower(s)))
  {
    LowerIdempotent(s);
  }

  /** A word whose first letter never appears in the text does not occur in it. */
  lemma FirstLetterAbsent(text: string, word: string)
    requires |word| > 0
    requires forall j :: 0 <= j < |text| ==> text[j] != word[0]
    ensures !Contains(text, word)
  {
    ContainsIffOccurs(text, word);
  }

  /** Matching is by substring, not by word: "rebooking" counts. */
  lemma KeywordInsideWord()
    ensures ClassifySpeech(Some("Rebooking please")) == Booking
  {
    var s := Lower("Rebooking please");
    assert s[2..6] == "book";
    assert OccursAt(s, "book", 2);
    ContainsIffOccurs(s, "book");
  }

  /** A request without any keyword goes elsewhere. */
  lemma NoKeywordIsOther()
    ensures ClassifySpeech(Some("I need help")) == Other
  {
    var t := Lower("I need help");
    forall k | k in BookingKeywords ensures !Contains(t, k) {
      FirstLetterAbsent(t, k);
    }
  }
}
