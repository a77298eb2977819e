/** The JSON serialisers of trace.h: `vec_json` renders a vector of ints as a
    JSON array (section 5 of RFC 8259) and `pairs_json` a vector of
    (node, distance) pairs as an array of objects with members "n" and "d"
    (section 4). How `ostream` prints a double is not modelled: it is the
    parameter `fmt`. */
module Trace {
  import opened Types
  import opened Text

  /** The element texts of `vec_json`. */
  function Renderings(v: seq<int>): seq<string> {
    seq(|v|, i requires 0 <= i < |v| => IntToString(v[i]))
  }

  /** The renderings of one more element end with that element's. */
  lemma RenderingsStep(v: seq<int>, i: nat)
    requires i < |v|
    ensures Renderings(v[..i + 1]) == Renderings(v[..i]) + [IntToString(v[i])]
  {
    var a, b := Renderings(v[..i + 1]), Renderings(v[..i]) + [IntToString(v[i])];
    forall k | 0 <= k < |a| ensures a[k] == b[k] {
      assert v[..i + 1][k] == v[k];
    }
    assert a == b;
  }

  /** What `vec_json(v)` promises: the renderings, comma-separated, in brackets. */
  function VecJsonText(v: seq<int>): string {
    "[" + Join(Renderings(v), ',') + "]"
  }

  /** The fixed pieces of one object: `{"n":`, `,"d":` and `}`. */
  const ObjectOpen: string := "{\"n\":"
  const ObjectMid: string := ",\"d\":"
  const ObjectClose: string := "}"

  /** One object of `pairs_json`. */
  function PairText(p: (int, ExtReal), fmt: ExtReal -> string): string {
    ObjectOpen + IntToString(p.0) + ObjectMid + fmt(p.1) + ObjectClose
  }

  /** The object texts of `pairs_json`. */
  function PairTexts(v: seq<(int, ExtReal)>, fmt: ExtReal -> string): seq<string> {
    seq(|v|, i requires 0 <= i < |v| => PairText(v[i], fmt))
  }

  /** The objects of one more pair end with that pair's object. */
  lemma PairTextsStep(v: seq<(int, ExtReal)>, i: nat, fmt: ExtReal -> string)
    requires i < |v|
    ensures PairTexts(v[..i + 1], fmt) == PairTexts(v[..i], fmt) + [PairText(v[i], fmt)]
  {
    var a, b := PairTexts(v[..i + 1], fmt), PairTexts(v[..i], fmt) + [PairText(v[i], fmt)];
    forall k | 0 <= k < |a| ensures a[k] == b[k] {
      assert v[..i + 1][k] == v[k];
    }
    assert a == b;
  }

  /** What `pairs_json(v)` promises: the objects, comma-separated, in brackets. */
  function PairsJsonText(v: seq<(int, ExtReal)>, fmt: ExtReal -> string): string {
    "[" + Join(PairTexts(v, fmt), ',') + "]"
  }

  /** `vec_json` (trace.h:17-26): the stream starts with `[`, each element
      after the first is preceded by `,`, and `]` closes it. */
  method VecJson(v: seq<int>) returns (s: string)
    ensures s == VecJsonText(v)
  {
    s := "[";
    ghost var parts: seq<string> := [];
    for i := 0 to |v|
      invariant |parts| == i && parts == Renderings(v[..i])
      invariant s == Opened(parts, ',')
    {
      if i > 0 {
        s := s + ",";
      }
      var item := IntToString(v[i]);
      s := s + item;
      OpenedAppend(parts, item, ',');
      RenderingsStep(v, i);
      parts := parts + [item];
    }
    s := s + "]";
    assert v[..|v|] == v;
    OpenedIsJoin(parts, ',');
  }

  /** `pairs_json` (trace.h:29-36), with `fmt` for `ostream << double`. */
  method PairsJson(v: seq<(int, ExtReal)>, fmt: ExtReal -> string) returns (s: string)
    ensures s == PairsJsonText(v, fmt)
  {
    s := "[";
    ghost var parts: seq<string> := [];
    for i := 0 to |v|
      invariant |parts| == i && parts == PairTexts(v[..i], fmt)
      invariant s == Opened(parts, ',')
    {
      if i > 0 {
        s := s + ",";
      }
      var item := ObjectOpen + IntToString(v[i].0) + ObjectMid + fmt(v[i].1) + ObjectClose;
      s := s + item;
      OpenedAppend(parts, item, ',');
      PairTextsStep(v, i, fmt);
      parts := parts + [item];
    }
    s := s + "]";
    assert v[..|v|] == v;
    OpenedIsJoin(parts, ',');
  }

  /** The shape of `vec_json`'s text: bracketed; `"[]"` exactly for the empty
      vector; otherwise |v|-1 commas, and cutting the text between the
      brackets at the commas gives back, in order, texts that read as the
      elements of `v`. */
  lemma VecJsonShape(v: seq<int>)
    ensures var t := VecJsonText(v);
            |t| >= 2 && t[0] == '[' && t[|t| - 1] == ']' && t[1..|t| - 1] == Join(Renderings(v), ',')
    ensures VecJsonText(v) == "[]" <==> v == []
    ensures |v| > 0 ==> Count(VecJsonText(v), ',') == |v| - 1
    ensures |v| > 0 ==>
              var pieces := Split(VecJsonText(v)[1..|VecJsonText(v)| - 1], ',');
              |pieces| == |v| && forall i :: 0 <= i < |v| ==> ParseInt(pieces[i]) == Some(v[i])
  {
    var t := VecJsonText(v);
    var body := Join(Renderings(v), ',');
    assert t[1..|t| - 1] == body;
    if v != [] {
      forall i | 0 <= i < |v| ensures ',' !in Renderings(v)[i] {
        IntToStringHasNo(v[i], ',');
      }
      IntToStringHasNo(v[0], ',');
      assert |Renderings(v)[0]| > 0;
      assert |body| > 0 by { JoinFirst(Renderings(v), ','); }
      CountJoin(Renderings(v), ',');
      CountConcat("[" + body, "]", ',');
      CountConcat("[", body, ',');
      SplitJoin(Renderings(v), ',');
      forall i | 0 <= i < |v| ensures ParseInt(Renderings(v)[i]) == Some(v[i]) {
        IntToStringRoundTrip(v[i]);
      }
    }
  }

  /** The text the serialisers' loops have written after the given parts:
      `[`, then each part, with a separator before all but the first. */
  function Opened(parts: seq<string>, sep: char): string
    decreases |parts|
  {
    if |parts| == 0 then "["
    else Opened(parts[..|parts| - 1], sep) + (if |parts| > 1 then [sep] else "") + parts[|parts| - 1]
  }

  /** One more part: a separator unless it is the first, then the part. */
  lemma OpenedAppend(parts: seq<string>, p: string, sep: char)
    ensures Opened(parts + [p], sep) ==
            (if |parts| > 0 then Opened(parts, sep) + [sep] else Opened(parts, sep)) + p
  {
    assert (parts + [p])[..|parts|] == parts;
  }

  /** What the loops have written is the opening bracket and the join. */
  lemma {:induction false} OpenedIsJoin(parts: seq<string>, sep: char)
    ensures Opened(parts, sep) == "[" + Join(parts, sep)
    decreases |parts|
  {
    if |parts| > 1 {
      var init, last := parts[..|parts| - 1], parts[|parts| - 1];
      var j := Join(init, sep);
      calc {
        Opened(parts, sep);
        Opened(init, sep) + [sep] + last;
        { OpenedIsJoin(init, sep); }
        "[" + j + [sep] + last;
        { assert "[" + j + [sep] + last == "[" + (j + [sep] + last); }
        "[" + (j + [sep] + last);
        { JoinAppend(init, last, sep); assert init + [last] == parts; }
        "[" + Join(parts, sep);
      }
    } else if |parts| == 1 {
      assert Opened(parts, sep) == "[" + parts[0];
    }
  }

  /** A join starts with its first part. */
  lemma JoinFirst(parts: seq<string>, sep: char)
    requires |parts| > 0
    ensures Join(parts, sep)[..|parts[0]|] == parts[0]
  {
  }

  /** Every object of `pairs_json` opens with `{"n":`, then the id's digits,
      then `,"d":`, the formatted distance and `}`; when `fmt` never writes a
      brace, the text holds one `{` and one `}` per pair. */
  lemma PairsJsonShape(v: seq<(int, ExtReal)>, fmt: ExtReal -> string)
    ensures var t := PairsJsonText(v, fmt);
            |t| >= 2 && t[0] == '[' && t[|t| - 1] == ']'
    ensures PairsJsonText(v, fmt) == "[]" <==> v == []
    ensures (forall d :: '{' !in fmt(d) && '}' !in fmt(d)) ==>
              Count(PairsJsonText(v, fmt), '{') == |v| && Count(PairsJsonText(v, fmt), '}') == |v|
  {
    if v != [] {
      assert |PairTexts(v, fmt)[0]| > 0;
      JoinFirst(PairTexts(v, fmt), ',');
    }
    if forall d :: '{' !in fmt(d) && '}' !in fmt(d) {
      forall c | c == '{' || c == '}'
        ensures Count(PairsJsonText(v, fmt), c) == |v|
      {
        forall i | 0 <= i < |v| ensures Count(PairTexts(v, fmt)[i], c) == 1 {
          PairCount(v[i], fmt, c);
        }
        CountJoinOnes(PairTexts(v, fmt), ',', c);
        CountConcat("[" + Join(PairTexts(v, fmt), ','), "]", c);
        CountConcat("[", Join(PairTexts(v, fmt), ','), c);
      }
    }
  }

  /** One object holds one `{` and one `}` when `fmt` writes neither. */
  lemma PairCount(p: (int, ExtReal), fmt: ExtReal -> string, c: char)
    requires c == '{' || c == '}'
    requires c !in fmt(p.1)
    ensures Count(PairText(p, fmt), c) == 1
  {
    var id := IntToString(p.0);
    var d := NatToString(if p.0 < 0 then -p.0 else p.0);
    assert forall k :: 0 <= k < |d| ==> d[k] != c;
    assert c !in id;
    CountAbsent(id, c);
    CountAbsent(fmt(p.1), c);
    CountAbsent(ObjectMid, c);
    assert Count(ObjectOpen, c) == (if c == '{' then 1 else 0);
    assert Count(ObjectClose, c) == (if c == '}' then 1 else 0);
    CountConcat(ObjectOpen, id, c);
    CountConcat(ObjectOpen + id, ObjectMid, c);
    CountConcat(ObjectOpen + id + ObjectMid, fmt(p.1), c);
    CountConcat(ObjectOpen + id + ObjectMid + fmt(p.1), ObjectClose, c);
  }

  /** When each part holds `c` once and the separator is not `c`, the join
      holds `c` once per part. */
  lemma {:induction false} CountJoinOnes(parts: seq<string>, sep: char, c: char)
    requires sep != c
    requires forall i :: 0 <= i < |parts| ==> Count(parts[i], c) == 1
    ensures Count(Join(parts, sep), c) == |parts|
    decreases |parts|
  {
    if |parts| > 1 {
      CountJoinOnes(parts[1..], sep, c);
      CountConcat(parts[0] + [sep], Join(parts[1..], sep), c);
      CountConcat(parts[0], [sep], c);
    }
  }
}
