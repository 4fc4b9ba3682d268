/**
 * parseLocationString: reading the x, y and accuracy of a location as
 * iFormBuilder writes it, either in record metadata (`y:x:altitude:accuracy…`)
 * or as a location widget value (`Latitude:y,Longitude:x,…,Accuracy:a,…`).
 */
module IFormLocation {
  import opened Php

  /** The returned array: x and y are strings (null when absent) or the integer 0; accuracy is text. */
  datatype Location = Location(x: Doc, y: Doc, accuracy: string)

  /** The answer for input with too few parts. */
  const Unknown := Location(Num(0), Num(0), "")

  /** The smallest accuracy reported, in metres. */
  const AccuracyFloor := 5

  /** `$parts[$i]`: the part as a string, or null past the end. */
  function Part(parts: seq<string>, i: nat): Doc
  {
    if i < |parts| then Str(parts[i]) else Null
  }

  /** The accuracy text: the (int) cast of the value, raised to the floor, then `m`. */
  function AccuracyText(d: Doc): string
  {
    var a := DocToInt(d);
    IntToString(if a > AccuracyFloor then a else AccuracyFloor) + "m"
  }

  /** The text after the first `:` of a part (`explode(':', $part)[1]`), null when there is none. */
  function AfterColon(part: string): Doc
  {
    Part(Explode(':', part), 1)
  }

  /** parseLocationString($string, $stringType); any other type yields nothing. */
  function ParseLocation(s: string, kind: string): (r: Option<Location>)
    ensures r.Some? <==> kind == "meta" || kind == "widget"
  {
    if kind == "meta" then
      var data := Explode(':', s);
      if |data| > 1 then Some(Location(Part(data, 1), Part(data, 0), AccuracyText(Part(data, 3))))
      else Some(Unknown)
    else if kind == "widget" then
      var data := Explode(',', s);
      if |data| > 4 then
        Some(Location(AfterColon(data[1]), AfterColon(data[0]), AccuracyText(AfterColon(data[4]))))
      else Some(Unknown)
    else None
  }

  /** The accuracy text is a whole number of metres, never below the floor, and the value itself above it. */
  lemma AccuracyTextSpec(d: Doc)
    ensures var a := DocToInt(d);
      && StringToInt(AccuracyText(d)) == (if a > AccuracyFloor then a else AccuracyFloor)
      && StringToInt(AccuracyText(d)) >= AccuracyFloor
      && AccuracyText(d)[|AccuracyText(d)| - 1] == 'm'
  {
    var a := DocToInt(d);
    var n: nat := if a > AccuracyFloor then a else AccuracyFloor;
    StringToIntOfNat(n, "m");
  }

  /**
   * Metadata text `y:x:altitude:accuracy` (no part holding `:`) reads back as
   * its y, x and the accuracy raised to 5 metres.
   */
  lemma MetaRoundTrip(y: string, x: string, altitude: string, accuracy: nat)
    requires ':' !in y && ':' !in x && ':' !in altitude
    ensures ParseLocation(Implode(':', [y, x, altitude, NatToString(accuracy)]), "meta")
         == Some(Location(Str(x), Str(y), NatToString(if accuracy > 5 then accuracy else 5) + "m"))
  {
    var parts := [y, x, altitude, NatToString(accuracy)];
    DigitsHaveNoColon(NatToString(accuracy));
    ExplodeImplode(':', parts);
    StringToIntOfNat(accuracy, "");
    assert NatToString(accuracy) + "" == NatToString(accuracy);
  }

  /** Metadata with only `y:x` still reads the coordinates; the missing accuracy counts as 0, so 5 metres. */
  lemma MetaWithoutAccuracy(y: string, x: string)
    requires ':' !in y && ':' !in x
    ensures ParseLocation(y + ":" + x, "meta") == Some(Location(Str(x), Str(y), "5m"))
  {
    ExplodeImplode(':', [y, x]);
    assert Implode(':', [y, x]) == y + ":" + x;
    var data := Explode(':', y + ":" + x);
    assert data == [y, x];
    assert Part(data, 3) == Null;
    assert IntToString(5) == [DigitChar(5)] == "5";
    assert AccuracyText(Null) == "5m";
    assert Part(data, 1) == Str(x);
  }

  /** Text without a `:` is not metadata: zeros and an empty accuracy. */
  lemma MetaTooShort(s: string)
    requires ':' !in s
    ensures ParseLocation(s, "meta") == Some(Unknown)
  {
    BeforeOfPlain(s, ':');
  }

  /**
   * A widget value of five or more `label:value` parts reads the values after
   * the labels of parts 0, 1 and 4 as y, x and accuracy.
   */
  lemma WidgetRoundTrip(labels: seq<string>, values: seq<string>, accuracy: nat)
    requires |labels| == |values| >= 5
    requires forall i :: 0 <= i < |labels| ==> ':' !in labels[i] && ',' !in labels[i]
    requires forall i :: 0 <= i < |values| ==> ':' !in values[i] && ',' !in values[i]
    requires values[4] == NatToString(accuracy)
    ensures ParseLocation(Implode(',', Labelled(labels, values)), "widget")
         == Some(Location(Str(values[1]), Str(values[0]), NatToString(if accuracy > 5 then accuracy else 5) + "m"))
  {
    var parts := Labelled(labels, values);
    LabelledParts(labels, values);
    LabelledPart(labels[0], values[0]);
    LabelledPart(labels[1], values[1]);
    LabelledPart(labels[4], values[4]);
    StringToIntOfNat(accuracy, "");
    assert NatToString(accuracy) + "" == NatToString(accuracy);
  }

  /** The parts come back out of the joined widget value. */
  lemma LabelledParts(labels: seq<string>, values: seq<string>)
    requires |labels| == |values| >= 1
    requires forall i :: 0 <= i < |labels| ==> ',' !in labels[i] && ',' !in values[i]
    ensures Explode(',', Implode(',', Labelled(labels, values))) == Labelled(labels, values)
  {
    var parts := Labelled(labels, values);
    forall i | 0 <= i < |parts| ensures ',' !in parts[i] {
      assert parts[i] == labels[i] + [':'] + values[i];
    }
    ExplodeImplode(',', parts);
  }

  /** The value comes back out of its part. */
  lemma LabelledPart(tag: string, value: string)
    requires ':' !in tag && ':' !in value
    ensures AfterColon(tag + [':'] + value) == Str(value)
  {
    assert tag + [':'] + value == Implode(':', [tag, value]);
    ExplodeImplode(':', [tag, value]);
  }

  /** Each widget part: `label:value`. */
  function Labelled(labels: seq<string>, values: seq<string>): (parts: seq<string>)
    requires |labels| == |values|
    ensures |parts| == |labels|
    ensures forall i :: 0 <= i < |parts| ==> parts[i] == labels[i] + [':'] + values[i]
  {
    seq(|labels|, i requires 0 <= i < |labels| => labels[i] + [':'] + values[i])
  }

  /** A widget value of fewer than five parts gives zeros and an empty accuracy. */
  lemma WidgetTooShort(parts: seq<string>)
    requires 1 <= |parts| <= 4
    requires forall i :: 0 <= i < |parts| ==> ',' !in parts[i]
    ensures ParseLocation(Implode(',', parts), "widget") == Some(Unknown)
  {
    ExplodeImplode(',', parts);
  }

  lemma DigitsHaveNoColon(s: string)
    requires forall i :: 0 <= i < |s| ==> '0' <= s[i] <= '9'
    ensures ':' !in s
  {
  }
}
