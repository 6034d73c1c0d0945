/**
 * `decodeTLV`: the data-object reader of the EMV QR Code Specification for
 * Payment Systems, Merchant-Presented Mode (section 3.2, ID / Length /
 * Value), as the Pix "copia e cola" payload uses it. Each record is a
 * two-character tag, a two-character decimal length and that many characters
 * of value; the result maps each tag to its value, a later duplicate
 * overwriting an earlier one.
 */
module Tlv {
  import opened Wrappers
  import opened JsString

  datatype Field = Field(tag: string, value: string)

  /** What one pass of the decoder's loop at cursor i records, and where the cursor goes. */
  datatype Step =
    | Next(field: Field, next: int)  // the length field held a number
    | Last(field: Field)             // the length field was NaN: the cursor becomes NaN

  /** The loop body at cursor i < |s|. */
  function StepAt(s: string, i: nat): (st: Step)
    requires i < |s|
    ensures st.Last? ==> st.field.value == s[..Min(i + 4, |s|)]
  {
    var tag := Substring(s, i, i + 2);
    match ParseInt(Substring(s, i + 2, i + 4))
    // substring(i + 4, NaN) reads NaN as 0 and swaps the bounds
    case None => Last(Field(tag, Substring(s, i + 4, 0)))
    case Some(len) => Next(Field(tag, Substring(s, i + 4, i + 4 + len)), i + 4 + len)
  }

  /**
   * The records the loop visits from cursor i on, in order. None when a length
   * field of -4 or below would hold the cursor still or move it back: the
   * source's loop then need not terminate, and that case is not modelled.
   */
  function FieldsFrom(s: string, i: nat): Option<seq<Field>>
    decreases |s| - i
  {
    if i >= |s| then Some([])
    else match StepAt(s, i)
      case Last(f) => Some([f])
      case Next(f, j) =>
        if j <= i then None
        else match FieldsFrom(s, j)
          case None => None
          case Some(fs) => Some([f] + fs)
  }

  /** The inputs on which the loop makes progress on every pass. */
  predicate Decodable(s: string)
  {
    FieldsFrom(s, 0).Some?
  }

  /** Writes the records into m one after the other, as `result[tag] = value` does. */
  function Apply(m: map<string, string>, fs: seq<Field>): map<string, string>
    decreases |fs|
  {
    if fs == [] then m else Apply(m[fs[0].tag := fs[0].value], fs[1..])
  }

  /** The map decodeTLV returns for s. */
  function TlvMap(s: string): map<string, string>
    requires Decodable(s)
  {
    Apply(map[], FieldsFrom(s, 0).value)
  }

  /** The decoder: a cursor loop that reads one record per pass. */
  method DecodeTlv(s: string) returns (result: map<string, string>)
    requires Decodable(s)
    ensures result == TlvMap(s)
    ensures s == [] ==> result == map[]
  {
    result := map[];
    var i: nat := 0;
    while i < |s|
      invariant FieldsFrom(s, i).Some?
      invariant Apply(result, FieldsFrom(s, i).value) == TlvMap(s)
      decreases |s| - i
    {
      var tag := Substring(s, i, i + 2);
      var len := ParseInt(Substring(s, i + 2, i + 4));
      if len.None? {
        // NaN length: substring(i + 4, NaN) == substring(0, i + 4); then i
        // becomes NaN and the loop test fails
        NaNLengthEndsLoop(s, i);
        result := result[tag := Substring(s, i + 4, 0)];
        break;
      }
      var value := Substring(s, i + 4, i + 4 + len.value);
      assert StepAt(s, i) == Next(Field(tag, value), i + 4 + len.value);
      StepUnfolds(s, i, Field(tag, value), i + 4 + len.value);
      result := result[tag := value];
      i := i + 4 + len.value;
    }
  }

  // ---------------------------------------------------------------------
  // One pass of the loop
  // ---------------------------------------------------------------------

  /**
   * A length field that starts with a digit moves the cursor forward by
   * exactly 4 + len, and the value is the next len characters, cut short at
   * the end of the input rather than rejected.
   */
  lemma StepAdvances(s: string, i: nat)
    requires i + 2 < |s| && IsDigit(s[i + 2])
    ensures ParseInt(Substring(s, i + 2, i + 4)).Some?
    ensures var len := ParseInt(Substring(s, i + 2, i + 4)).value;
      && 0 <= len <= 99
      && StepAt(s, i).Next?
      && StepAt(s, i).next == i + 4 + len >= i + 4
      && StepAt(s, i).field.tag == s[i..i + 2]
      && |StepAt(s, i).field.value| == Min(len, Max(0, |s| - (i + 4)))
      && StepAt(s, i).field.value == s[Min(i + 4, |s|)..Min(i + 4 + len, |s|)]
  {
    var lf := Substring(s, i + 2, i + 4);
    assert lf[0] == s[i + 2];
    ParseIntDigitLed(lf);
    ParseIntTwoChars(lf);
    SubstringLength(s, i + 4, i + 4 + ParseInt(lf).value);
  }

  /**
   * A length field that is not a number records tag -> s[0 .. min(i + 4, |s|)]
   * and ends the loop: no later record is read.
   */
  lemma NaNLengthEndsLoop(s: string, i: nat)
    requires i < |s| && ParseInt(Substring(s, i + 2, i + 4)) == None
    ensures Substring(s, i + 4, 0) == s[..Min(i + 4, |s|)]
    ensures FieldsFrom(s, i) == Some([Field(Substring(s, i, i + 2), s[..Min(i + 4, |s|)])])
  {
  }

  /**
   * A length field of "-4" holds the cursor where it is: on "00-4" the source's
   * loop never ends, and the input is outside Decodable.
   */
  lemma NegativeLengthStalls()
    ensures StepAt("00-4", 0) == Next(Field("00", "00-4"), 0)
    ensures !Decodable("00-4")
  {
    var s := "00-4";
    assert Substring(s, 2, 4) == "-4";
    assert TrimStart("-4") == "-4";
    assert "-4"[1..] == "4";
    assert ReadDigits("4", 0) == ReadDigits("4"[1..], 4);
    assert ParseInt("-4") == Some(-4);
    assert Substring(s, 4, 0) == s;
  }

  /**
   * A pass that reads a number hands over to the pass at the new cursor: the
   * records from i exist exactly when the cursor moves forward and the records
   * from the new cursor exist, and then the pass's record comes first.
   */
  lemma StepUnfolds(s: string, i: nat, f: Field, j: int)
    requires i < |s| && StepAt(s, i) == Next(f, j)
    ensures FieldsFrom(s, i).Some? <==> j > i && FieldsFrom(s, j).Some?
    ensures FieldsFrom(s, i).Some? ==> FieldsFrom(s, i).value == [f] + FieldsFrom(s, j).value
  {
  }

  // ---------------------------------------------------------------------
  // Last write wins
  // ---------------------------------------------------------------------

  lemma {:induction false} ApplyAppend(m: map<string, string>, a: seq<Field>, b: seq<Field>)
    ensures Apply(m, a + b) == Apply(Apply(m, a), b)
    decreases |a|
  {
    if a != [] {
      assert (a + b)[1..] == a[1..] + b;
      ApplyAppend(m[a[0].tag := a[0].value], a[1..], b);
    } else {
      assert a + b == b;
    }
  }

  /** Records with other tags leave an entry as it was. */
  lemma {:induction false} ApplyUntouched(m: map<string, string>, fs: seq<Field>, t: string)
    requires forall j :: 0 <= j < |fs| ==> fs[j].tag != t
    ensures t in Apply(m, fs) <==> t in m
    ensures t in m ==> Apply(m, fs)[t] == m[t]
    decreases |fs|
  {
    if fs != [] {
      ApplyUntouched(m[fs[0].tag := fs[0].value], fs[1..], t);
    }
  }

  /** The decoded map holds a tag exactly when the map started with it or a record carries it. */
  lemma {:induction false} ApplyKeys(m: map<string, string>, fs: seq<Field>, t: string)
    ensures t in Apply(m, fs) <==> t in m || exists j :: 0 <= j < |fs| && fs[j].tag == t
    decreases |fs|
  {
    if fs != [] {
      ApplyKeys(m[fs[0].tag := fs[0].value], fs[1..], t);
      if exists j :: 0 <= j < |fs| && fs[j].tag == t {
        var j :| 0 <= j < |fs| && fs[j].tag == t;
        if j > 0 {
          assert fs[1..][j - 1].tag == t;
        }
      }
    }
  }

  /** A tag maps to the value of its LAST record: a later duplicate overwrites an earlier one. */
  lemma LastWins(m: map<string, string>, fs: seq<Field>, k: nat)
    requires k < |fs|
    requires forall j :: k < j < |fs| ==> fs[j].tag != fs[k].tag
    ensures fs[k].tag in Apply(m, fs) && Apply(m, fs)[fs[k].tag] == fs[k].value
  {
    assert fs == fs[..k + 1] + fs[k + 1..];
    ApplyAppend(m, fs[..k + 1], fs[k + 1..]);
    assert fs[..k + 1] == fs[..k] + [fs[k]];
    ApplyAppend(m, fs[..k], [fs[k]]);
    ApplyUntouched(Apply(m, fs[..k + 1]), fs[k + 1..], fs[k].tag);
  }

  // ---------------------------------------------------------------------
  // Round trip with the encoder
  // ---------------------------------------------------------------------

  /** A record the two-digit length field can describe. */
  predicate WellFormed(f: Field)
  {
    |f.tag| == 2 && |f.value| < 100
  }

  /** tag + zero-padded two-digit length + value, record after record. */
  function Encode(fs: seq<Field>): (s: string)
    requires forall k :: 0 <= k < |fs| ==> WellFormed(fs[k])
    decreases |fs|
  {
    if fs == [] then []
    else
      assert WellFormed(fs[0]);
      fs[0].tag + PadStart2(|fs[0].value|) + fs[0].value + Encode(fs[1..])
  }

  /** Where a well-formed record follows a prefix q, the pass at |q| reads exactly that record. */
  lemma RecordAt(q: string, f: Field, r: string)
    requires WellFormed(f)
    ensures var s := q + f.tag + PadStart2(|f.value|) + f.value + r;
      |q| < |s| && StepAt(s, |q|) == Next(f, |q| + 4 + |f.value|)
  {
    var lenText := PadStart2(|f.value|);
    var s := q + f.tag + lenText + f.value + r;
    var i := |q|;
    assert s[i..i + 2] == f.tag;
    assert s[i + 2..i + 4] == lenText;
    assert s[i + 4..i + 4 + |f.value|] == f.value;
    PadStart2RoundTrip(|f.value|);
  }

  /** Starting at the end of any prefix p, the loop reads back exactly the encoded records. */
  lemma {:induction false} FieldsOfEncoding(p: string, fs: seq<Field>)
    requires forall k :: 0 <= k < |fs| ==> WellFormed(fs[k])
    ensures FieldsFrom(p + Encode(fs), |p|) == Some(fs)
    decreases |fs|
  {
    var s := p + Encode(fs);
    if fs != [] {
      var f := fs[0];
      var p' := p + f.tag + PadStart2(|f.value|) + f.value;
      assert s == p' + Encode(fs[1..]);
      RecordAt(p, f, Encode(fs[1..]));
      FieldsOfEncoding(p', fs[1..]);
      StepUnfolds(s, |p|, f, |p'|);
      assert [f] + fs[1..] == fs;
    } else {
      assert s == p;
    }
  }

  /** Decoding an encoding gives the map built by inserting the records in order. */
  lemma RoundTrip(fs: seq<Field>)
    requires forall k :: 0 <= k < |fs| ==> WellFormed(fs[k])
    ensures Decodable(Encode(fs))
    ensures TlvMap(Encode(fs)) == Apply(map[], fs)
  {
    FieldsOfEncoding([], fs);
    assert [] + Encode(fs) == Encode(fs);
  }

  /** One well-formed record decodes to the one-entry map. */
  lemma SingleRecord(tag: string, value: string)
    requires |tag| == 2 && |value| < 100
    ensures Decodable(tag + PadStart2(|value|) + value)
    ensures TlvMap(tag + PadStart2(|value|) + value) == map[tag := value]
  {
    var fs := [Field(tag, value)];
    assert WellFormed(fs[0]);
    assert Encode(fs) == tag + PadStart2(|value|) + value by {
      assert fs[1..] == [];
    }
    RoundTrip(fs);
  }

  /** Two well-formed records decode to a map holding both; the second wins on equal tags. */
  lemma TwoRecords(a: Field, b: Field)
    requires WellFormed(a) && WellFormed(b)
    ensures var s := a.tag + PadStart2(|a.value|) + a.value + b.tag + PadStart2(|b.value|) + b.value;
      Decodable(s) && TlvMap(s) == map[a.tag := a.value][b.tag := b.value]
  {
    var fs := [a, b];
    var first := a.tag + PadStart2(|a.value|) + a.value;
    var second := b.tag + PadStart2(|b.value|) + b.value;
    assert Encode(fs) == first + second by {
      assert fs[1..] == [b];
      assert fs[1..][1..] == [];
      assert Encode(fs[1..]) == second + Encode([]);
    }
    assert first + second == a.tag + PadStart2(|a.value|) + a.value + b.tag + PadStart2(|b.value|) + b.value;
    RoundTrip(fs);
    var m1 := map[][a.tag := a.value];
    assert Apply(map[], fs) == Apply(m1, [b]);
    assert Apply(m1, [b]) == Apply(m1[b.tag := b.value], []);
  }
}
