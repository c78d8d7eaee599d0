/**
  Cassini SPK (ephemeris) kernel names (`SPK_FNAME`). A regular SPK name
  starts with a six-digit delivery date (YYMMDD), followed at position 6 by
  a version letter, a type letter `P` or `R`, or an underscore. Old-style
  names carry start and end events such as `LP0` (launch, after swingby,
  0 days) or `V1M10` (Venus 1, before swingby, 10 days).
 */
module CassiniSpk {
  import opened Common
  import opened PyStr
  import opened CassiniNames

  /** `evaluate_special`: a first token shorter than six characters, or one starting with `de` or `sat`. */
  predicate SpecialByName(token0: string) {
    |token0| < 6 || StartsWith(token0, "de") || StartsWith(token0, "sat")
  }

  /** `set_delivery_date`: the first six characters of the first token as a date, or None when that fails. */
  function DeliveryDate(fname: string, strptime: DateParser): (d: Option<Date>)
    ensures d.Some? <==> CasDate2Dt(Slice(SplitName(fname).tokens[0], 0, 6), strptime).Ok?
  {
    match CasDate2Dt(Slice(SplitName(fname).tokens[0], 0, 6), strptime)
    case Ok(v) => Some(v)
    case Err(_) => None
  }

  /** Whether a constructed `SPK_FNAME` is special: by its name, or because its delivery date does not parse. */
  predicate SpkIsSpecial(fname: string, strptime: DateParser)
    ensures var t0 := SplitName(fname).tokens[0];
            !SpkIsSpecial(fname, strptime) <==>
              && |t0| >= 6 && !StartsWith(t0, "de") && !StartsWith(t0, "sat")
              && strptime(t0[..6], YearMonthDay).Some?
  {
    SpecialByName(SplitName(fname).tokens[0]) || DeliveryDate(fname, strptime).None?
  }

  /**
    A name that starts with a six-character delivery date (no dot or
    underscore in it, not starting with `de` or `sat`) that parses as YYMMDD
    is not special, and its delivery date is that date.
   */
  lemma RegularSpkName(date: string, rest: string, strptime: DateParser)
    requires |date| == 6 && '.' !in date && '_' !in date
    requires !StartsWith(date, "de") && !StartsWith(date, "sat")
    requires strptime(date, YearMonthDay).Some?
    ensures !SpkIsSpecial(date + rest, strptime)
    ensures DeliveryDate(date + rest, strptime) == strptime(date, YearMonthDay)
  {
    var fname := date + rest;
    var p0 := Split(fname, '.')[0];
    SplitFirstPrefix(date, rest, '.');
    assert p0 == date + p0[6..];
    SplitFirstPrefix(date, p0[6..], '_');
    var t0 := SplitName(fname).tokens[0];
    assert t0[..6] == date;
    assert t0[..2] == date[..2];
    assert t0[..3] == date[..3];
  }

  /**
    A name whose first token is shorter than six characters is special, yet
    when that token has five characters that parse as a day of the year it
    still gets a delivery date.
   */
  lemma ShortNameIsSpecial(fname: string, strptime: DateParser)
    requires |SplitName(fname).tokens[0]| < 6
    ensures SpkIsSpecial(fname, strptime)
    ensures var t0 := SplitName(fname).tokens[0];
            |t0| == 5 && strptime(t0, YearDayOfYear).Some? ==> DeliveryDate(fname, strptime) == strptime(t0, YearDayOfYear)
  {
    var t0 := SplitName(fname).tokens[0];
    assert Slice(t0, 0, 6) == t0;
  }

  /**
    `SPK_FNAME`: the name, its tokens and extensions, and the two attributes
    the constructor computes in place.
   */
  class SpkName {
    const fname: string
    const tokens: seq<string>
    const ext: seq<string>
    var isSpecial: bool
    var deliveryDate: Option<Date>

    /** `__init__`: not special at first, then `evaluate_special` and `set_delivery_date`. */
    constructor (fname: string, strptime: DateParser)
      ensures this.fname == fname && tokens == SplitName(fname).tokens && ext == SplitName(fname).ext
      ensures isSpecial == SpkIsSpecial(fname, strptime)
      ensures deliveryDate == DeliveryDate(fname, strptime)
    {
      var n := SplitName(fname);
      this.fname := fname;
      tokens := n.tokens;
      ext := n.ext;
      isSpecial := false;
      deliveryDate := None;
      new;
      EvaluateSpecial();
      SetDeliveryDate(strptime);
    }

    /** `evaluate_special`: marks the name special by the look of its first token; never clears the mark. */
    method EvaluateSpecial()
      requires |tokens| >= 1
      modifies this
      ensures isSpecial == (old(isSpecial) || SpecialByName(tokens[0]))
      ensures deliveryDate == old(deliveryDate)
    {
      if |tokens[0]| < 6 || StartsWith(tokens[0], "de") || StartsWith(tokens[0], "sat") {
        isSpecial := true;
      }
    }

    /**
      `set_delivery_date`: the first six characters of the first token as a
      date; when that raises ValueError the name becomes special and has no
      delivery date.
     */
    method SetDeliveryDate(strptime: DateParser)
      requires |tokens| >= 1
      modifies this
      ensures var d := CasDate2Dt(Slice(tokens[0], 0, 6), strptime);
              && deliveryDate == (if d.Ok? then Some(d.value) else None)
              && isSpecial == (old(isSpecial) || d.Err?)
    {
      var d := CasDate2Dt(Slice(tokens[0], 0, 6), strptime);
      if d.Err? {
        isSpecial := true;
        deliveryDate := None;
      } else {
        deliveryDate := Some(d.value);
      }
    }

    /**
      `is_old_style`: delivered before the separation date. Without a
      delivery date the comparison raises TypeError.
     */
    function IsOldStyle(sepDate: Date): (r: Result<bool>)
      reads this
      ensures r.Err? <==> deliveryDate.None?
      ensures r.Err? ==> r.error == TypeError
      ensures r.Ok? ==> (r.value <==> deliveryDate.value < sepDate)
    {
      match deliveryDate
      case None => Err(TypeError)
      case Some(d) => Ok(d < sepDate)
    }
  }

  // ---------------------------------------------------------------------------
  // Version and type

  predicate IsTypeLetter(c: char) {
    UpperChar(c) == 'P' || UpperChar(c) == 'R'
  }

  /**
    `SPK_FNAME.version`: the character at position 6, upper-cased; "none"
    when it is an underscore or a type letter. A name of six characters or
    fewer raises IndexError.
   */
  function SpkVersion(fname: string): (r: Result<string>)
    ensures r.Err? <==> |fname| <= 6
    ensures r.Err? ==> r.error == IndexError
  {
    if |fname| <= 6 then Err(IndexError)
    else
      var c := fname[6];
      if c == '_' then Ok("none")
      else if IsTypeLetter(c) then Ok("none")
      else Ok([UpperChar(c)])
  }

  /** `SPK_FNAME.type`: the character at position 6 when it is `P` or `R` in either case, else "none". */
  function SpkType(fname: string): (r: Result<string>)
    ensures r.Err? <==> |fname| <= 6
    ensures r.Err? ==> r.error == IndexError
  {
    if |fname| <= 6 then Err(IndexError)
    else if IsTypeLetter(fname[6]) then Ok([fname[6]])
    else Ok("none")
  }

  /**
    Position 6 holds at most one of version and type: a type letter gives a
    type and no version, an underscore neither, and any other character a
    one-letter upper-case version and no type.
   */
  lemma VersionTypeExclusive(fname: string)
    requires |fname| > 6
    ensures SpkType(fname).value != "none" <==> IsTypeLetter(fname[6])
    ensures SpkType(fname).value != "none" ==> SpkType(fname).value == [fname[6]] && SpkVersion(fname).value == "none"
    ensures SpkVersion(fname).value == "none" <==> fname[6] == '_' || IsTypeLetter(fname[6])
    ensures SpkVersion(fname).value != "none" ==>
              SpkVersion(fname).value == [UpperChar(fname[6])] && !IsAsciiLower(SpkVersion(fname).value[0])
  {
  }

  // ---------------------------------------------------------------------------
  // Old-style events

  /** The body keys `decode_old_event` tries, in order, and the names they stand for. */
  const EventKeys: seq<string> := ["L", "V1", "V2", "E", "J", "S"]
  const EventNames: seq<string> := ["Launch", "Venus 1", "Venus 2", "Earth", "Jupiter", "Saturn"]

  /**
    The names found and the text left after trying the first `k` keys in
    order, each once: a key the text starts with is replaced by its name and
    cut off.
   */
  function ConsumeKeys(token: string, k: nat): (r: (seq<string>, string))
    requires k <= |EventKeys|
    ensures |r.0| <= k
    decreases k
  {
    if k == 0 then ([], token)
    else
      var (found, rest) := ConsumeKeys(token, k - 1);
      if StartsWith(rest, EventKeys[k - 1]) then (found + [EventNames[k - 1]], rest[|EventKeys[k - 1]|..])
      else (found, rest)
  }

  /**
    What the key loop finds is a list of body names, each one of the first
    `k`, and what it leaves is the end of the token.
   */
  lemma {:induction false} ConsumeKeysShape(token: string, k: nat)
    requires k <= |EventKeys|
    ensures var (found, rest) := ConsumeKeys(token, k);
            && (forall i :: 0 <= i < |found| ==> found[i] in EventNames[..k])
            && EndsWith(token, rest)
    decreases k
  {
    if k > 0 {
      ConsumeKeysShape(token, k - 1);
      ConsumeOneKey(token, k - 1);
      var (found, rest) := ConsumeKeys(token, k - 1);
      assert forall x :: x in EventNames[..k - 1] ==> x in EventNames[..k] by {
        assert EventNames[..k - 1] == EventNames[..k][..k - 1];
      }
      assert EventNames[k - 1] in EventNames[..k] by {
        assert EventNames[..k][k - 1] == EventNames[k - 1];
      }
      if StartsWith(rest, EventKeys[k - 1]) {
        var r2 := rest[|EventKeys[k - 1]|..];
        assert token[|token| - |r2|..] == rest[|rest| - |r2|..];
      }
    }
  }

  /** One more key: it is consumed, and its body named, exactly when the rest starts with it. */
  lemma ConsumeOneKey(token: string, k: nat)
    requires k < |EventKeys|
    ensures var (found, rest) := ConsumeKeys(token, k);
            ConsumeKeys(token, k + 1) ==
              if StartsWith(rest, EventKeys[k]) then (found + [EventNames[k]], rest[|EventKeys[k]|..])
              else (found, rest)
  {
  }

  /** The swingby lookup: `P` is after, `M` before; any other key is missing. */
  function Swingby(c: char): (r: Option<string>)
    ensures r.Some? <==> c == 'P' || c == 'M'
  {
    if c == 'P' then Some("after swingby")
    else if c == 'M' then Some("before swingby")
    else None
  }

  /**
    What `decode_old_event` returns: the bodies found, the swingby side and the
    day count. An empty rest raises IndexError, a character other than P or M
    KeyError, and a day count that is not an integer ValueError.
   */
  function OldEvent(token: string): (r: Result<seq<string>>)
    ensures r.Ok? ==> |r.value| >= 2 && r.value[|r.value| - 2] in {"after swingby", "before swingby"}
    ensures r.Err? ==> r.error == IndexError || r.error == KeyError || r.error == ValueError
    ensures var rest := ConsumeKeys(token, |EventKeys|).1;
            && (r == Err(IndexError) <==> rest == [])
            && (r == Err(KeyError) <==> rest != [] && rest[0] != 'P' && rest[0] != 'M')
            && (r == Err(ValueError) <==> rest != [] && (rest[0] == 'P' || rest[0] == 'M') && ParseInt(rest[1..]).None?)
    ensures var (found, rest) := ConsumeKeys(token, |EventKeys|);
            r.Ok? ==>
              && r.value[..|r.value| - 2] == found
              && r.value[|r.value| - 2] == (if rest[0] == 'P' then "after swingby" else "before swingby")
              && r.value[|r.value| - 1] == IntToString(ParseInt(rest[1..]).value) + " days"
  {
    var (found, rest) := ConsumeKeys(token, |EventKeys|);
    if rest == [] then Err(IndexError)
    else match Swingby(rest[0])
      case None => Err(KeyError)
      case Some(side) =>
        match ParseInt(rest[1..])
        case None => Err(ValueError)
        case Some(n) => Ok(found + [side, IntToString(n) + " days"])
  }

  /** `SPK_FNAME.decode_old_event`: a loop over the keys that shrinks the token and appends names. */
  method DecodeOldEvent(token: string) returns (r: Result<seq<string>>)
    ensures r == OldEvent(token)
  {
    var result: seq<string> := [];
    var rest := token;
    for k := 0 to |EventKeys|
      invariant (result, rest) == ConsumeKeys(token, k)
    {
      ConsumeOneKey(token, k);
      var key := EventKeys[k];
      if StartsWith(rest, key) {
        result := result + [EventNames[k]];
        rest := rest[|key|..];
      }
    }
    assert (result, rest) == ConsumeKeys(token, |EventKeys|);
    if rest == [] {
      return Err(IndexError);
    }
    var side := Swingby(rest[0]);
    if side.None? {
      return Err(KeyError);
    }
    var found := result;
    result := result + [side.value];
    rest := rest[1..];
    var days := ParseInt(rest);
    if days.None? {
      return Err(ValueError);
    }
    result := result + [IntToString(days.value) + " days"];
    assert result == found + [side.value, IntToString(days.value) + " days"];
    r := Ok(result);
  }

  // ---------------------------------------------------------------------------
  // Writing an event token and reading it back

  /** The keys of the chosen bodies from position `k` on, written one after another. */
  function KeysFrom(bodies: seq<bool>, k: nat): string
    requires |bodies| == |EventKeys| && k <= |EventKeys|
    decreases |EventKeys| - k
  {
    if k == |EventKeys| then []
    else (if bodies[k] then EventKeys[k] else []) + KeysFrom(bodies, k + 1)
  }

  /** The names of the chosen bodies among the first `k`, in order. */
  function NamesUpTo(bodies: seq<bool>, k: nat): seq<string>
    requires |bodies| == |EventKeys| && k <= |EventKeys|
    decreases k
  {
    if k == 0 then []
    else NamesUpTo(bodies, k - 1) + (if bodies[k - 1] then [EventNames[k - 1]] else [])
  }

  /** An old-style event token: the chosen bodies' keys in order, `P` or `M`, and the day count. */
  function EncodeOldEvent(bodies: seq<bool>, after: bool, days: int): string
    requires |bodies| == |EventKeys|
  {
    KeysFrom(bodies, 0) + SwingbyTail(after, days)
  }

  /** The words a text after position `k` can start with: a later key, or the swingby letter. */
  predicate StartsWithLater(x: string, k: nat)
    requires k <= |EventKeys|
  {
    (exists i :: k <= i < |EventKeys| && StartsWith(x, EventKeys[i])) || StartsWith(x, "P") || StartsWith(x, "M")
  }

  /** The keys, `P` and `M` form a prefix-free set: a text starting with a later word does not start with key `k`. */
  lemma NotKeyAfter(x: string, k: nat)
    requires k < |EventKeys| && StartsWithLater(x, k + 1)
    ensures !StartsWith(x, EventKeys[k])
  {
    var key := EventKeys[k];
    if exists i :: k + 1 <= i < |EventKeys| && StartsWith(x, EventKeys[i]) {
      var i :| k + 1 <= i < |EventKeys| && StartsWith(x, EventKeys[i]);
      KeysPrefixFree(k, i);
      PrefixCompare(x, EventKeys[i], key);
    } else if StartsWith(x, "P") {
      KeyNotSwingby(k);
      PrefixCompare(x, "P", key);
    } else {
      KeyNotSwingby(k);
      PrefixCompare(x, "M", key);
    }
  }

  /** No key is a prefix of another, and none starts or is started by `P` or `M`. */
  lemma KeysPrefixFree(k: nat, i: nat)
    requires k < i < |EventKeys|
    ensures !StartsWith(EventKeys[i], EventKeys[k]) && !StartsWith(EventKeys[k], EventKeys[i])
  {
    var a := EventKeys[k];
    var b := EventKeys[i];
    KeyHead(k);
    KeyHead(i);
    if k == 1 && i == 2 {
      DifferAt(a, b, 1);
    } else {
      DifferAt(a, b, 0);
    }
  }

  lemma KeyNotSwingby(k: nat)
    requires k < |EventKeys|
    ensures !StartsWith(EventKeys[k], "P") && !StartsWith("P", EventKeys[k])
    ensures !StartsWith(EventKeys[k], "M") && !StartsWith("M", EventKeys[k])
  {
    KeyHead(k);
    DifferAt(EventKeys[k], "P", 0);
    DifferAt(EventKeys[k], "M", 0);
  }

  /** The first character of each key; only the two Venus keys share it, and they differ in the second. */
  lemma KeyHead(k: nat)
    requires k < |EventKeys|
    ensures |EventKeys[k]| >= 1 && EventKeys[k][0] == "LVVEJS"[k]
    ensures k == 1 ==> EventKeys[k] == "V1"
    ensures k == 2 ==> EventKeys[k] == "V2"
  {
  }

  /** Texts that differ at a position both have: neither is a prefix of the other. */
  lemma DifferAt(a: string, b: string, j: nat)
    requires j < |a| && j < |b| && a[j] != b[j]
    ensures !StartsWith(a, b) && !StartsWith(b, a)
  {
    if |b| <= |a| {
      assert a[..|b|][j] == a[j];
    }
    if |a| <= |b| {
      assert b[..|a|][j] == b[j];
    }
  }

  lemma {:induction false} KeysFromStart(bodies: seq<bool>, k: nat, tail: string)
    requires |bodies| == |EventKeys| && k <= |EventKeys|
    requires StartsWith(tail, "P") || StartsWith(tail, "M")
    ensures StartsWithLater(KeysFrom(bodies, k) + tail, k)
    decreases |EventKeys| - k
  {
    var x := KeysFrom(bodies, k) + tail;
    if k < |EventKeys| {
      if bodies[k] {
        assert x == EventKeys[k] + (KeysFrom(bodies, k + 1) + tail);
        assert StartsWith(x, EventKeys[k]);
      } else {
        KeysFromStart(bodies, k + 1, tail);
        assert x == KeysFrom(bodies, k + 1) + tail;
        if !(StartsWith(x, "P") || StartsWith(x, "M")) {
          var i :| k + 1 <= i < |EventKeys| && StartsWith(x, EventKeys[i]);
          assert k <= i;
        }
      }
    } else {
      assert x == tail;
    }
  }

  /** Trying the first `k` keys on an encoded token finds the chosen bodies among them and leaves the rest. */
  lemma {:induction false} ConsumeEncoded(bodies: seq<bool>, k: nat, tail: string, token: string)
    requires |bodies| == |EventKeys| && k <= |EventKeys|
    requires StartsWith(tail, "P") || StartsWith(tail, "M")
    requires token == KeysFrom(bodies, 0) + tail
    ensures ConsumeKeys(token, k) == (NamesUpTo(bodies, k), KeysFrom(bodies, k) + tail)
    decreases k
  {
    if k > 0 {
      ConsumeEncoded(bodies, k - 1, tail, token);
      ConsumeStep(bodies, k, tail, token);
    }
  }

  /** Trying key `k - 1` keeps the correspondence between the text left and the bodies still to come. */
  lemma ConsumeStep(bodies: seq<bool>, k: nat, tail: string, token: string)
    requires |bodies| == |EventKeys| && 0 < k <= |EventKeys|
    requires StartsWith(tail, "P") || StartsWith(tail, "M")
    ensures ConsumeKeys(token, k - 1) == (NamesUpTo(bodies, k - 1), KeysFrom(bodies, k - 1) + tail) ==>
            ConsumeKeys(token, k) == (NamesUpTo(bodies, k), KeysFrom(bodies, k) + tail)
  {
    if bodies[k - 1] {
      ConsumeTaken(bodies, k, tail, token);
    } else {
      ConsumeSkipped(bodies, k, tail, token);
    }
  }

  /** Key `k - 1` was chosen: the text starts with it, and it is replaced by its name. */
  lemma ConsumeTaken(bodies: seq<bool>, k: nat, tail: string, token: string)
    requires |bodies| == |EventKeys| && 0 < k <= |EventKeys| && bodies[k - 1]
    ensures ConsumeKeys(token, k - 1) == (NamesUpTo(bodies, k - 1), KeysFrom(bodies, k - 1) + tail) ==>
            ConsumeKeys(token, k) == (NamesUpTo(bodies, k), KeysFrom(bodies, k) + tail)
  {
    var key := EventKeys[k - 1];
    var rest := KeysFrom(bodies, k - 1) + tail;
    assert rest == key + (KeysFrom(bodies, k) + tail);
    assert StartsWith(rest, key);
    assert rest[|key|..] == KeysFrom(bodies, k) + tail;
  }

  /** Key `k - 1` was not chosen: the text starts with a later word, so the key does not match. */
  lemma ConsumeSkipped(bodies: seq<bool>, k: nat, tail: string, token: string)
    requires |bodies| == |EventKeys| && 0 < k <= |EventKeys| && !bodies[k - 1]
    requires StartsWith(tail, "P") || StartsWith(tail, "M")
    ensures ConsumeKeys(token, k - 1) == (NamesUpTo(bodies, k - 1), KeysFrom(bodies, k - 1) + tail) ==>
            ConsumeKeys(token, k) == (NamesUpTo(bodies, k), KeysFrom(bodies, k) + tail)
  {
    var rest := KeysFrom(bodies, k - 1) + tail;
    assert rest == KeysFrom(bodies, k) + tail;
    KeysFromStart(bodies, k, tail);
    NotKeyAfter(rest, k - 1);
    assert NamesUpTo(bodies, k) == NamesUpTo(bodies, k - 1) + [] == NamesUpTo(bodies, k - 1);
  }

  /**
    Decoding an encoded event gives the chosen bodies in order, the swingby
    side and the day count back.
   */
  lemma OldEventRoundTrip(bodies: seq<bool>, after: bool, days: int)
    requires |bodies| == |EventKeys|
    ensures OldEvent(EncodeOldEvent(bodies, after, days))
            == Ok(NamesUpTo(bodies, |EventKeys|)
                  + [if after then "after swingby" else "before swingby", IntToString(days) + " days"])
  {
    var tail := SwingbyTail(after, days);
    ConsumeAllEncoded(bodies, tail);
    OldEventOfConsumed(KeysFrom(bodies, 0) + tail, NamesUpTo(bodies, |EventKeys|), tail);
  }

  /** The part of an encoded token after the keys: the swingby letter and the day count. */
  function SwingbyTail(after: bool, days: int): (tail: string)
    ensures tail != [] && (StartsWith(tail, "P") || StartsWith(tail, "M"))
    ensures Swingby(tail[0]) == Some(if after then "after swingby" else "before swingby")
    ensures ParseInt(tail[1..]) == Some(days)
  {
    var tail := (if after then "P" else "M") + IntToString(days);
    assert tail[1..] == IntToString(days);
    ParseIntToString(days);
    tail
  }

  /** All keys tried on an encoded token: the chosen bodies' names, and the tail left over. */
  lemma ConsumeAllEncoded(bodies: seq<bool>, tail: string)
    requires |bodies| == |EventKeys|
    requires StartsWith(tail, "P") || StartsWith(tail, "M")
    ensures ConsumeKeys(KeysFrom(bodies, 0) + tail, |EventKeys|) == (NamesUpTo(bodies, |EventKeys|), tail)
  {
    ConsumeEncoded(bodies, |EventKeys|, tail, KeysFrom(bodies, 0) + tail);
    assert KeysFrom(bodies, |EventKeys|) + tail == tail;
  }

  /** `OldEvent` once the keys are consumed and the rest is a swingby letter and a day count. */
  lemma OldEventOfConsumed(token: string, found: seq<string>, rest: string)
    requires rest != [] && Swingby(rest[0]).Some? && ParseInt(rest[1..]).Some?
    ensures ConsumeKeys(token, |EventKeys|) == (found, rest) ==>
            OldEvent(token) == Ok(found + [Swingby(rest[0]).value, IntToString(ParseInt(rest[1..]).value) + " days"])
  {
  }
}
