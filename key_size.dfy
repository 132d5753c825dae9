/** The size of one key, read from the reply of the store's DEBUG OBJECT
    introspection command: the fifth space-separated field is
    `serializedlength:<n>`, and the text after its first `:` is parsed. */
module KeySize {
  import opened GoStrings
  import opened GoStrconv

  /** The outcome of the introspection call for one key. */
  datatype DebugReply = CallFailed | Reply(text: string)

  /** The reply has the fifth field and the `:` inside it that the parser
      indexes; on any other reply the indexing panics. */
  predicate HasSizeField(text: string)
  {
    var fields := Split(text, " ");
    |fields| >= 5 && |Split(fields[4], ":")| >= 2
  }

  predicate WellFormedReply(reply: DebugReply)
  {
    reply.Reply? ==> HasSizeField(reply.text)
  }

  /** The text between the first and the second `:` of the fifth field. */
  function SizeField(text: string): string
    requires HasSizeField(text)
  {
    Split(Split(text, " ")[4], ":")[1]
  }

  /** The size the analysis records for a key: 0 when the call failed, else
      the value ParseUint returns for the size field, error discarded. */
  function KeySizeOf(reply: DebugReply): (size: nat)
    requires WellFormedReply(reply)
    ensures size <= MaxUint64
    ensures reply.CallFailed? ==> size == 0
    ensures reply.Reply? && ParseUint(SizeField(reply.text)).err == ErrSyntax ==> size == 0
    ensures reply.Reply? && ParseUint(SizeField(reply.text)).err == ErrRange ==> size == MaxUint64
  {
    match reply
    case CallFailed => 0
    case Reply(text) => ParseUint(SizeField(text)).value
  }

  /** The fifth space-separated field of `f0 f1 f2 f3 field rest`. */
  lemma FifthField(fields: seq<string>, field: string, rest: string)
    requires |fields| == 4 && forall i :: 0 <= i < 4 ==> ' ' !in fields[i]
    requires ' ' !in field
    ensures var text := fields[0] + " " + fields[1] + " " + fields[2] + " " + fields[3] + " "
                        + field + " " + rest;
      |Split(text, " ")| >= 5 && Split(text, " ")[4] == field
  {
    var t4 := field + " " + rest;
    var t3 := fields[3] + " " + t4;
    var t2 := fields[2] + " " + t3;
    var t1 := fields[1] + " " + t2;
    assert fields[0] + " " + fields[1] + " " + fields[2] + " " + fields[3] + " " + field + " " + rest
      == fields[0] + " " + t1;
    SplitAtChar(field, ' ', rest);
    SplitAtChar(fields[3], ' ', t4);
    SplitAtChar(fields[2], ' ', t3);
    SplitAtChar(fields[1], ' ', t2);
    SplitAtChar(fields[0], ' ', t1);
  }

  /** `name:<digits>` splits on `:` into the name and the digits. */
  lemma NameValue(name: string, n: nat)
    requires ' ' !in name && ':' !in name
    ensures ' ' !in name + ":" + DecimalString(n)
    ensures Split(name + ":" + DecimalString(n), ":") == [name, DecimalString(n)]
  {
    var digits := DecimalString(n);
    assert ' ' !in digits && ':' !in digits by {
      assert forall k :: 0 <= k < |digits| ==> IsDigit(digits[k]);
    }
    SplitWithoutChar(digits, ':');
    SplitAtChar(name, ':', digits);
  }

  /** A reply `f0 f1 f2 f3 name:<n> rest` whose first five fields hold no
      space, whose field name holds no `:`, yields exactly `n`. */
  lemma KeySizeReadsSerializedLength(fields: seq<string>, name: string, n: nat, rest: string)
    requires |fields| == 4 && forall i :: 0 <= i < 4 ==> ' ' !in fields[i]
    requires ' ' !in name && ':' !in name
    requires n <= MaxUint64
    ensures var text := fields[0] + " " + fields[1] + " " + fields[2] + " " + fields[3] + " "
                        + (name + ":" + DecimalString(n)) + " " + rest;
      WellFormedReply(Reply(text)) && KeySizeOf(Reply(text)) == n
  {
    NameValue(name, n);
    FifthField(fields, name + ":" + DecimalString(n), rest);
    ParseUintDecimal(n);
  }

  /** A size field that starts with a non-digit, or is empty, counts as 0. */
  lemma KeySizeNotANumber(text: string)
    requires HasSizeField(text)
    requires SizeField(text) == "" || !IsDigit(SizeField(text)[0])
    ensures KeySizeOf(Reply(text)) == 0
  {
    if SizeField(text) != "" {
      ScanBadFirst(SizeField(text));
    }
  }
}
