/** The one piece of logic in the speech-recognition hook: a recognised
    transcript is reduced to its ASCII digits before it is handed to the input form. */
module SpeechRecognition {
  import opened Types

  /** `transcript.replace(/\D/g, '')`: every character outside '0'..'9' is removed. */
  function DigitsOnly(transcript: string): (r: string)
    ensures AllDigits(r)
    ensures |r| <= |transcript|
  {
    if transcript == [] then []
    else if IsAsciiDigit(transcript[0]) then [transcript[0]] + DigitsOnly(transcript[1..])
    else DigitsOnly(transcript[1..])
  }

  /** `sub` can be obtained from `s` by deleting characters, keeping the order of the rest. */
  predicate IsSubsequence(sub: string, s: string)
    decreases |s|
  {
    if sub == [] then true
    else if s == [] then false
    else (sub[0] == s[0] && IsSubsequence(sub[1..], s[1..])) || IsSubsequence(sub, s[1..])
  }

  /** The number of times `c` occurs in `s`. */
  function Occurrences(s: string, c: char): nat
  {
    if s == [] then 0 else (if s[0] == c then 1 else 0) + Occurrences(s[1..], c)
  }

  /** The filter distributes over concatenation. */
  lemma {:induction false} DigitsOnlyAppend(a: string, b: string)
    ensures DigitsOnly(a + b) == DigitsOnly(a) + DigitsOnly(b)
  {
    if a != [] {
      assert (a + b)[1..] == a[1..] + b;
      DigitsOnlyAppend(a[1..], b);
    } else {
      assert a + b == b;
    }
  }

  /** The filtered transcript keeps the digits of the transcript in their original order. */
  lemma {:induction false} DigitsOnlyIsSubsequence(transcript: string)
    ensures IsSubsequence(DigitsOnly(transcript), transcript)
  {
    if transcript != [] {
      DigitsOnlyIsSubsequence(transcript[1..]);
    }
  }

  /** Every digit occurs as often in the filtered transcript as in the transcript,
      and no other character occurs in it at all. Together with the subsequence
      property this says the output is exactly the digits of the input, in order. */
  lemma {:induction false} DigitsOnlyOccurrences(transcript: string, c: char)
    ensures Occurrences(DigitsOnly(transcript), c) == if IsAsciiDigit(c) then Occurrences(transcript, c) else 0
  {
    if transcript != [] {
      DigitsOnlyOccurrences(transcript[1..], c);
      if IsAsciiDigit(transcript[0]) {
        assert ([transcript[0]] + DigitsOnly(transcript[1..]))[1..] == DigitsOnly(transcript[1..]);
      }
    }
  }

  /** A string of digits passes the filter unchanged. */
  lemma {:induction false} DigitsOnlyKeepsDigitStrings(s: string)
    requires AllDigits(s)
    ensures DigitsOnly(s) == s
  {
    if s != [] {
      DigitsOnlyKeepsDigitStrings(s[1..]);
    }
  }

  /** Filtering is idempotent. */
  lemma DigitsOnlyIdempotent(transcript: string)
    ensures DigitsOnly(DigitsOnly(transcript)) == DigitsOnly(transcript)
  {
    DigitsOnlyKeepsDigitStrings(DigitsOnly(transcript));
  }

  /** The output has the length of the input exactly when the input is all digits. */
  lemma {:induction false} DigitsOnlyLengthPreserved(transcript: string)
    ensures |DigitsOnly(transcript)| == |transcript| <==> AllDigits(transcript)
  {
    if transcript != [] {
      DigitsOnlyLengthPreserved(transcript[1..]);
      if AllDigits(transcript[1..]) && IsAsciiDigit(transcript[0]) {
        assert AllDigits(transcript);
      }
    }
  }

  /** The output is empty exactly when the transcript contains no digit. */
  lemma {:induction false} DigitsOnlyEmpty(transcript: string)
    ensures DigitsOnly(transcript) == [] <==> forall i :: 0 <= i < |transcript| ==> !IsAsciiDigit(transcript[i])
  {
    if transcript != [] {
      DigitsOnlyEmpty(transcript[1..]);
      assert forall i :: 1 <= i < |transcript| ==> transcript[i] == transcript[1..][i - 1];
    }
  }

  /** A worked example: a spoken "four 5 six-7" reduces to "57". */
  lemma DigitsOnlyExample()
    ensures DigitsOnly("four 5 six-7") == "57"
  {
  }
}
