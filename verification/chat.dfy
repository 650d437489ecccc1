/** The chat sanitiser of the writeChat resolver (backend/src/schema.ts):
    every character outside an allow-list becomes a placeholder. */
module Chat {
  import opened Types

  const Placeholder: char := '*'

  /** The length the resolver means to cut a message to. */
  const MaxMessageLength: nat := 30

  /** The character class of the filter, matched case-insensitively: the
      ASCII letters in both cases, digits, the German umlauts in both cases,
      the sharp s, and `? ! space . , _ -`. Under a case-insensitive match
      without the unicode flag the sharp s has no other case (its upper case
      is two characters), so it alone is kept. */
  predicate Allowed(c: char) {
    || ('a' <= c <= 'z') || ('A' <= c <= 'Z') || ('0' <= c <= '9')
    || c == '\U{00E4}' || c == '\U{00F6}' || c == '\U{00FC}'   // a, o, u with diaeresis
    || c == '\U{00C4}' || c == '\U{00D6}' || c == '\U{00DC}'   // their upper case
    || c == '\U{00DF}'                                         // sharp s
    || c == '?' || c == '!' || c == ' ' || c == '.' || c == ',' || c == '_' || c == '-'
  }

  /** The global replace: each disallowed character becomes the
      placeholder, each allowed one is kept, nothing is added or dropped. */
  function Sanitize(m: string): (r: string)
    ensures |r| == |m|
    ensures forall i :: 0 <= i < |m| ==> (Allowed(m[i]) ==> r[i] == m[i])
    ensures forall i :: 0 <= i < |m| ==> (!Allowed(m[i]) ==> r[i] == Placeholder)
  {
    if |m| == 0 then []
    else [if Allowed(m[0]) then m[0] else Placeholder] + Sanitize(m[1..])
  }

  /** Sanitising a sanitised message changes nothing. */
  lemma SanitizeIdempotent(m: string)
    ensures Sanitize(Sanitize(m)) == Sanitize(m)
  {
  }

  /** Every character of a sanitised message is allowed or the placeholder. */
  lemma SanitizedAlphabet(m: string)
    ensures forall i :: 0 <= i < |Sanitize(m)| ==> Allowed(Sanitize(m)[i]) || Sanitize(m)[i] == Placeholder
  {
  }

  /** The message writeChat publishes, as written: the length guard reads a
      misspelt property that is always undefined, so it never fires and the
      message is not shortened. */
  function MessageAsWritten(m: string): (r: string)
    ensures |r| == |m|
  {
    Sanitize(m)
  }

  /** The message writeChat is meant to publish: cut to 30 characters, then
      sanitised. */
  function Message(m: string): (r: string)
    ensures |r| <= MaxMessageLength
    ensures |r| == if |m| > MaxMessageLength then MaxMessageLength else |m|
    ensures forall i :: 0 <= i < |r| ==> r[i] == if Allowed(m[i]) then m[i] else Placeholder
  {
    Sanitize(if |m| > MaxMessageLength then m[..MaxMessageLength] else m)
  }

  /** A message longer than 30 characters goes out at full length as
      written, and at 30 characters once the guard works. */
  lemma LongMessageNotTruncated(m: string)
    requires |m| > MaxMessageLength
    ensures |MessageAsWritten(m)| == |m| > MaxMessageLength
    ensures |Message(m)| == MaxMessageLength
  {
  }

  /** The message writeChat publishes in the chosen reading: every
      character sanitised in place, and only the corrected reading cuts
      the message to 30 characters. */
  function Published(v: Variant, m: string): (r: string)
    ensures |r| == if v.Corrected? && |m| > MaxMessageLength then MaxMessageLength else |m|
    ensures forall i :: 0 <= i < |r| ==> r[i] == if Allowed(m[i]) then m[i] else Placeholder
  {
    if v.AsWritten? then MessageAsWritten(m) else Message(m)
  }
}
