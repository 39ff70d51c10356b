/**
 * `filter_datum` of the personal-data logger: for each field name in turn,
 * every `field=<value><separator>` of the message, with the shortest value
 * that reaches a separator, becomes `field=<redaction><separator>`.
 *
 * The single-field step is the substitution `re.sub` makes with the pattern
 * `field=(.*?)separator`: a scan from the left that tries a match at each
 * position and, after a replacement, resumes behind it, so matches never
 * overlap. Field names and the separator are literal text (no regular
 * expression metacharacters), the replacement holds no backslash escapes, and
 * the message has no line breaks, so `.` matches every character.
 */
module FilteredLogger {
  import opened Wrappers

  /** `t` occurs in `s` starting at index `k`. */
  predicate OccursAt(s: string, k: nat, t: string)
  {
    k + |t| <= |s| && s[k..k + |t|] == t
  }

  /** The first index at or after `from` where `t` occurs in `s`. */
  function FirstOccurrence(s: string, t: string, from: nat): (r: Option<nat>)
    decreases |s| - from
    ensures r.Some? ==> from <= r.value && OccursAt(s, r.value, t)
    ensures r.Some? ==> forall k: nat :: from <= k < r.value ==> !OccursAt(s, k, t)
    ensures r.None? ==> forall k: nat :: from <= k ==> !OccursAt(s, k, t)
  {
    if from + |t| > |s| then None
    else if s[from..from + |t|] == t then Some(from)
    else FirstOccurrence(s, t, from + 1)
  }

  /**
   * One pass of `re.sub(f'{field}=(.*?){separator}', f'{field}={redaction}{separator}', message)`.
   * At the head of the message: if `field=` starts here and a separator follows
   * it, the shortest such match is replaced and the scan resumes after it;
   * otherwise the first character is kept and the scan moves on by one.
   */
  function RedactField(field: string, redaction: string, separator: string, message: string): string
    decreases |message|
  {
    if |message| == 0 then ""
    else if field + "=" <= message then
      match FirstOccurrence(message, separator, |field| + 1)
      case Some(k) =>
        field + "=" + redaction + separator + RedactField(field, redaction, separator, message[k + |separator|..])
      case None =>
        [message[0]] + RedactField(field, redaction, separator, message[1..])
    else
      [message[0]] + RedactField(field, redaction, separator, message[1..])
  }

  /** The fields applied one after another, in list order, each to the previous result. */
  function RedactFields(fields: seq<string>, redaction: string, separator: string, message: string): string
    decreases |fields|
  {
    if |fields| == 0 then message
    else RedactFields(fields[1..], redaction, separator, RedactField(fields[0], redaction, separator, message))
  }

  /** `filter_datum`: the loop that rebinds the message once per field. */
  method FilterDatum(fields: seq<string>, redaction: string, message: string, separator: string)
    returns (filtered: string)
    ensures filtered == RedactFields(fields, redaction, separator, message)
    ensures fields == [] ==> filtered == message
  {
    filtered := message;
    for i := 0 to |fields|
      invariant RedactFields(fields[i..], redaction, separator, filtered) ==
                RedactFields(fields, redaction, separator, message)
    {
      assert fields[i..][1..] == fields[i + 1..];
      filtered := RedactField(fields[i], redaction, separator, filtered);
    }
    assert fields[|fields|..] == [];
  }

  /** Folding one more field redacts the result of the shorter list with it. */
  lemma {:induction false} RedactFieldsAppend(fields: seq<string>, field: string, redaction: string,
                                              separator: string, message: string)
    ensures RedactFields(fields + [field], redaction, separator, message) ==
            RedactField(field, redaction, separator, RedactFields(fields, redaction, separator, message))
    decreases |fields|
  {
    if |fields| == 0 {
      assert fields + [field] == [field];
    } else {
      assert (fields + [field])[1..] == fields[1..] + [field];
      RedactFieldsAppend(fields[1..], field, redaction, separator,
                         RedactField(fields[0], redaction, separator, message));
    }
  }

  /** Occurrences in the tail of a message are the occurrences one index further in the message. */
  lemma OccursInTail(s: string, k: nat, t: string)
    requires |s| > 0
    ensures OccursAt(s[1..], k, t) == OccursAt(s, k + 1, t)
  {
  }

  /** No `field=` in the message is followed, anywhere after it, by a separator. */
  ghost predicate NothingMatches(field: string, separator: string, message: string)
  {
    forall i: nat, k: nat :: OccursAt(message, i, field + "=") && i + |field| + 1 <= k ==>
      !OccursAt(message, k, separator)
  }

  /**
   * A message in which no `field=` is followed by a separator comes out byte for
   * byte; in particular a `field=` with no separator after it is left untouched.
   */
  lemma {:induction false} NothingMatchedUnchanged(field: string, redaction: string, separator: string,
                                                   message: string)
    requires NothingMatches(field, separator, message)
    ensures RedactField(field, redaction, separator, message) == message
    decreases |message|
  {
    if |message| > 0 {
      if field + "=" <= message {
        assert OccursAt(message, 0, field + "=");
        assert FirstOccurrence(message, separator, |field| + 1).None?;
      }
      var tail := message[1..];
      forall i: nat, k: nat | OccursAt(tail, i, field + "=") && i + |field| + 1 <= k
        ensures !OccursAt(tail, k, separator)
      {
        OccursInTail(message, i, field + "=");
        OccursInTail(message, k, separator);
      }
      NothingMatchedUnchanged(field, redaction, separator, tail);
      assert [message[0]] + tail == message;
    }
  }

  /** Text before which no `field=` starts is copied unchanged ahead of the redacted rest. */
  lemma {:induction false} UnmatchedPrefixKept(field: string, redaction: string, separator: string,
                                               prefix: string, rest: string)
    requires forall i: nat :: i < |prefix| ==> !OccursAt(prefix + rest, i, field + "=")
    ensures RedactField(field, redaction, separator, prefix + rest) ==
            prefix + RedactField(field, redaction, separator, rest)
    decreases |prefix|
  {
    if |prefix| > 0 {
      var message := prefix + rest;
      assert !OccursAt(message, 0, field + "=");
      assert !(field + "=" <= message);
      assert message[1..] == prefix[1..] + rest;
      forall i: nat | i < |prefix[1..]| ensures !OccursAt(prefix[1..] + rest, i, field + "=") {
        OccursInTail(message, i, field + "=");
      }
      UnmatchedPrefixKept(field, redaction, separator, prefix[1..], rest);
      assert [message[0]] + prefix[1..] == prefix;
    } else {
      assert prefix + rest == rest;
    }
  }

  /**
   * A segment `field=value<separator>` at the head of the message, whose value
   * does not reach a separator earlier, is replaced by `field=<redaction><separator>`;
   * the match stops at that first separator and the text after it is scanned on.
   */
  lemma SegmentRedacted(field: string, redaction: string, separator: string, value: string, rest: string)
    requires forall k: nat :: k < |value| ==> !OccursAt(value + separator, k, separator)
    ensures RedactField(field, redaction, separator, field + "=" + value + separator + rest) ==
            field + "=" + redaction + separator + RedactField(field, redaction, separator, rest)
  {
    var message := field + "=" + value + separator + rest;
    var at := |field| + 1 + |value|;
    assert message[..|field| + 1] == field + "=";
    assert field + "=" <= message;
    assert message[at..at + |separator|] == separator;
    assert OccursAt(message, at, separator);
    forall k: nat | |field| + 1 <= k < at ensures !OccursAt(message, k, separator) {
      var j := k - |field| - 1;
      assert !OccursAt(value + separator, j, separator);
      assert message == (field + "=") + (value + separator) + rest;
      assert message[k..k + |separator|] == (value + separator)[j..j + |separator|];
    }
    var first := FirstOccurrence(message, separator, |field| + 1);
    assert first == Some(at);
    assert message[at + |separator|..] == rest;
  }

  /** The first `n` characters, up to the length of `field=`, survive redaction. */
  lemma {:induction false} HeadKept(field: string, redaction: string, separator: string, message: string, n: nat)
    requires n <= |field| + 1 && n <= |message|
    ensures n <= |RedactField(field, redaction, separator, message)|
    ensures RedactField(field, redaction, separator, message)[..n] == message[..n]
    decreases |message|
  {
    var out := RedactField(field, redaction, separator, message);
    if n > 0 {
      var first := FirstOccurrence(message, separator, |field| + 1);
      if field + "=" <= message && first.Some? {
        assert out[..n] == (field + "=")[..n] == message[..n];
      } else {
        HeadKept(field, redaction, separator, message[1..], n - 1);
        assert out == [message[0]] + RedactField(field, redaction, separator, message[1..]);
        assert out[..n] == [message[0]] + RedactField(field, redaction, separator, message[1..])[..n - 1];
        assert message[..n] == [message[0]] + message[1..][..n - 1];
      }
    }
  }

  /**
   * For one field, when the redaction followed by the separator first reaches a
   * separator at its end, redacting twice is redacting once.
   */
  lemma {:induction false} RedactFieldIdempotent(field: string, redaction: string, separator: string,
                                                 message: string)
    requires forall k: nat :: k < |redaction| ==> !OccursAt(redaction + separator, k, separator)
    ensures RedactField(field, redaction, separator, RedactField(field, redaction, separator, message)) ==
            RedactField(field, redaction, separator, message)
    decreases |message|
  {
    var out := RedactField(field, redaction, separator, message);
    if |message| > 0 {
      var first := FirstOccurrence(message, separator, |field| + 1);
      if field + "=" <= message && first.Some? {
        var rest := message[first.value + |separator|..];
        var restOut := RedactField(field, redaction, separator, rest);
        assert out == field + "=" + redaction + separator + restOut;
        SegmentRedacted(field, redaction, separator, redaction, restOut);
        RedactFieldIdempotent(field, redaction, separator, rest);
      } else if field + "=" <= message {
        forall i: nat, k: nat | OccursAt(message, i, field + "=") && i + |field| + 1 <= k
          ensures !OccursAt(message, k, separator)
        {
        }
        NothingMatchedUnchanged(field, redaction, separator, message);
      } else {
        var tailOut := RedactField(field, redaction, separator, message[1..]);
        assert out == [message[0]] + tailOut;
        if |message| >= |field| + 1 {
          HeadKept(field, redaction, separator, message, |field| + 1);
          assert out[..|field| + 1] == message[..|field| + 1];
        } else {
          NothingMatchedUnchanged(field, redaction, separator, message);
        }
        assert !(field + "=" <= out);
        RedactFieldIdempotent(field, redaction, separator, message[1..]);
        assert out[1..] == tailOut;
      }
    }
  }
}
