/** HTTP authentication challenges (RFC 2617 sections 1.2 and 3.2.1): splitting the parameters of a
    challenge, and choosing a scheme among the headers. */
module DigestChallenge {

  predicate IsBlank(c: char) {
    c == ' ' || c == '\n' || c == '\r'
  }

  /** How many blanks stand in front. */
  function Blanks(t: string): (n: nat)
    ensures n <= |t|
  {
    if t == "" || !IsBlank(t[0]) then 0 else 1 + Blanks(t[1..])
  }

  /** How many characters stand in front of the first `c`, all of them when there is none. */
  function Until(t: string, c: char): (n: nat)
    ensures n <= |t|
  {
    if t == "" || t[0] == c then 0 else 1 + Until(t[1..], c)
  }

  /** The value at the front, up to its end mark, with backslash escapes resolved; and its length
      as written. */
  function Value(t: string, end: char): (r: (string, nat))
    ensures r.1 <= |t|
  {
    if t == "" then ("", 0)
    else if t[0] == '\\' && |t| > 1 then
      var r := Value(t[2..], end); ([t[1]] + r.0, r.1 + 2)
    else if t[0] == end then ("", 0)
    else var r := Value(t[1..], end); ([t[0]] + r.0, r.1 + 1)
  }

  function EndMark(quote: bool): char {
    if quote then '"' else ','
  }

  /** The part of a challenge from the first character of a value on. */
  function AfterValue(t: string, end: char): string {
    var rest := t[Value(t, end).1..];
    rest[Until(rest, ',')..]
  }

  datatype Round = Stop | Found(key: string, value: string, rest: string)

  /** One round of the parser: a key, a value, and what follows the comma after it; nothing when the
      challenge ends at the mark before the value. */
  function ReadOption(challenge: string): (r: Round)
    ensures r.Found? ==> |r.rest| < |challenge|
  {
    var t := challenge[Blanks(challenge)..];
    var k := Until(t, '=');
    if k + 1 >= |t| then Stop else ReadBody(t[..k], t[k + 1..])
  }

  /** The rest of the round, from behind the mark on. */
  function ReadBody(key: string, body: string): (r: Round)
    requires body != ""
    ensures r.Found? ==> |r.rest| <= |body|
  {
    var quote := body[0] == '"';
    var from := if quote then body[1..] else body;
    if from == "" then Stop
    else
      var rest := AfterValue(from, EndMark(quote));
      Found(key, Value(from, EndMark(quote)).0, if rest == "" then "" else rest[1..])
  }

  /** The options of a challenge, added to those found so far. */
  function Parse(challenge: string, options: map<string, string>): map<string, string>
    decreases |challenge|
  {
    if challenge == "" then options
    else
      match ReadOption(challenge)
      case Stop => options
      case Found(key, value, rest) => Parse(rest, options[key := value])
  }

  // ---- Writing a challenge -----------------------------------------------------------------------

  datatype Param = Param(gap: string, key: string, value: string, quoted: bool)

  /** A parameter that can be written: only blanks in front, a key without `=` that does not start
      with a blank, and for a bare value at least one character that does not look like a quote. */
  predicate Writable(p: Param) {
    && Blanks(p.gap) == |p.gap|
    && '=' !in p.key && (p.key != "" ==> !IsBlank(p.key[0]))
    && (!p.quoted ==> p.value != "" && p.value[0] != '"')
  }

  /** The value with a backslash before every backslash and every end mark. */
  function Escape(v: string, end: char): string {
    if v == "" then "" else (if v[0] == '\\' || v[0] == end then ['\\', v[0]] else [v[0]]) + Escape(v[1..], end)
  }

  function WriteValue(p: Param): string {
    if p.quoted then "\"" + Escape(p.value, '"') + "\"" else Escape(p.value, ',')
  }

  function WriteParam(p: Param): string {
    p.gap + (p.key + ("=" + WriteValue(p)))
  }

  function WriteAll(ps: seq<Param>): string {
    if ps == [] then ""
    else if |ps| == 1 then WriteParam(ps[0])
    else WriteParam(ps[0]) + ("," + WriteAll(ps[1..]))
  }

  function Collect(ps: seq<Param>, options: map<string, string>): map<string, string> {
    if ps == [] then options else Collect(ps[1..], options[ps[0].key := ps[0].value])
  }

  lemma {:induction false} BlanksInFront(gap: string, t: string)
    requires Blanks(gap) == |gap| && (t != "" ==> !IsBlank(t[0]))
    ensures Blanks(gap + t) == |gap|
  {
    if gap == "" {
      assert gap + t == t;
    } else {
      BlanksInFront(gap[1..], t);
      assert (gap + t)[1..] == gap[1..] + t;
    }
  }

  lemma {:induction false} UntilNone(a: string, c: char)
    requires c !in a
    ensures Until(a, c) == |a|
  {
    if a != "" {
      UntilNone(a[1..], c);
    }
  }

  lemma {:induction false} UntilMark(a: string, c: char, t: string)
    requires c !in a && t != "" && t[0] == c
    ensures Until(a + t, c) == |a|
  {
    if a == "" {
      assert a + t == t;
    } else {
      UntilMark(a[1..], c, t);
      assert (a + t)[1..] == a[1..] + t;
    }
  }

  /** A character with a backslash before it, and one that needs none. */
  lemma ValueSteps(c: char, t: string, end: char)
    ensures Value(['\\', c] + t, end) == ([c] + Value(t, end).0, Value(t, end).1 + 2)
    ensures c != '\\' && c != end ==> Value([c] + t, end) == ([c] + Value(t, end).0, Value(t, end).1 + 1)
  {
    assert (['\\', c] + t)[2..] == t && ([c] + t)[1..] == t;
  }

  lemma ValueEnds(t: string, end: char)
    requires end != '\\' && (t != "" ==> t[0] == end)
    ensures Value(t, end) == ("", 0)
  {
  }

  /** Reading an escaped value up to its end mark, or to the end of the challenge. */
  lemma {:induction false} ValueOfEscape(v: string, end: char, t: string)
    requires end != '\\' && (t != "" ==> t[0] == end)
    ensures Value(Escape(v, end) + t, end) == (v, |Escape(v, end)|)
  {
    hide Value, Escape;
    EscapeUnfold(v, end);
    if v == "" {
      assert "" + t == t;
      ValueEnds(t, end);
    } else {
      var x, more := v[0], Escape(v[1..], end);
      ValueOfEscape(v[1..], end, t);
      ValueSteps(x, more + t, end);
      assert v == [x] + v[1..];
      var first := if x == '\\' || x == end then ['\\', x] else [x];
      assert first + more + t == first + (more + t);
    }
  }

  lemma EscapeUnfold(v: string, end: char)
    ensures v == "" ==> Escape(v, end) == ""
    ensures v != "" ==>
              var first := if v[0] == '\\' || v[0] == end then ['\\', v[0]] else [v[0]];
              Escape(v, end) == first + Escape(v[1..], end)
  {
  }

  lemma EscapeStarts(v: string, end: char)
    requires v != ""
    ensures Escape(v, end) != "" && (v[0] != '"' && end == ',' ==> Escape(v, end)[0] != '"')
  {
  }

  /** What is read as one parameter, given where its parts are. */
  lemma OptionParts(gap: string, key: string, body: string)
    requires Blanks(gap) == |gap| && '=' !in key && (key != "" ==> !IsBlank(key[0])) && body != ""
    ensures ReadOption(gap + (key + ("=" + body))) == ReadBody(key, body)
  {
    hide Blanks, Until, ReadBody;
    var t := key + ("=" + body);
    BlanksInFront(gap, t) by { assert !IsBlank(t[0]); }
    UntilMark(key, '=', "=" + body);
    assert (gap + t)[|gap|..] == t;
    assert t[..|key|] == key && t[|key| + 1..] == body;
  }

  lemma UntilComma(mark: string, tail: string)
    requires ',' !in mark && (tail != "" ==> tail[0] == ',') && |mark| <= 1
    ensures (mark + tail)[Until(mark + tail, ',')..] == tail
  {
    if mark != "" {
      assert (mark + tail)[1..] == tail;
    } else {
      assert mark + tail == tail;
    }
  }

  /** The value of a written parameter in quotes. */
  lemma ReadQuoted(key: string, v: string, tail: string)
    requires tail != "" ==> tail[0] == ','
    ensures ReadBody(key, "\"" + (Escape(v, '"') + ("\"" + tail))) ==
            Found(key, v, if tail == "" then "" else tail[1..])
  {
    hide Value, Escape, Until;
    var t := Escape(v, '"') + ("\"" + tail);
    assert ("\"" + t)[1..] == t;
    ValueOfEscape(v, '"', "\"" + tail);
    assert t[|Escape(v, '"')|..] == "\"" + tail;
    UntilComma("\"", tail);
  }

  /** The value of one without. */
  lemma ReadBare(key: string, v: string, tail: string)
    requires v != "" && v[0] != '"' && (tail != "" ==> tail[0] == ',')
    ensures Escape(v, ',') != ""
    ensures ReadBody(key, Escape(v, ',') + tail) == Found(key, v, if tail == "" then "" else tail[1..])
  {
    hide Value, Escape, Until;
    var body := Escape(v, ',') + tail;
    EscapeStarts(v, ',');
    assert body[0] == Escape(v, ',')[0];
    ValueOfEscape(v, ',', tail);
    assert body[|Escape(v, ',')|..] == tail;
    UntilComma("", tail);
  }

  /** One written parameter, followed by nothing or by a comma and the next ones. */
  lemma ReadWritten(p: Param, tail: string)
    requires Writable(p) && (tail != "" ==> tail[0] == ',')
    ensures ReadOption(WriteParam(p) + tail) == Found(p.key, p.value, if tail == "" then "" else tail[1..])
  {
    hide ReadOption, ReadBody, Escape, Blanks;
    var body := WriteValue(p) + tail;
    assert WriteParam(p) + tail == p.gap + (p.key + ("=" + body));
    if p.quoted {
      assert body == "\"" + (Escape(p.value, '"') + ("\"" + tail));
      ReadQuoted(p.key, p.value, tail);
    } else {
      ReadBare(p.key, p.value, tail);
    }
    OptionParts(p.gap, p.key, body);
  }

  /** Of several parameters with one key the last counts. */
  lemma {:induction false} CollectLast(ps: seq<Param>, options: map<string, string>, i: nat)
    requires i < |ps| && forall j :: i < j < |ps| ==> ps[j].key != ps[i].key
    ensures ps[i].key in Collect(ps, options) && Collect(ps, options)[ps[i].key] == ps[i].value
  {
    if i == 0 {
      CollectKeeps(ps[1..], options[ps[0].key := ps[0].value], ps[0].key);
    } else {
      CollectLast(ps[1..], options[ps[0].key := ps[0].value], i - 1);
    }
  }

  /** Parsing what was written gives the options back, a later one with the same key replacing an
      earlier one. */
  lemma {:induction false} ParseOfWriteAll(ps: seq<Param>, options: map<string, string>)
    requires forall p :: p in ps ==> Writable(p)
    ensures Parse(WriteAll(ps), options) == Collect(ps, options)
  {
    hide ReadOption, Writable, WriteParam;
    if ps != [] {
      assert ps[0] in ps;
      WriteParamNotEmpty(ps[0]);
      if |ps| == 1 {
        ReadWritten(ps[0], "");
        assert WriteParam(ps[0]) + "" == WriteParam(ps[0]);
        assert WriteAll(ps) == WriteParam(ps[0]);
        ParseNothing(options[ps[0].key := ps[0].value]);
      } else {
        ReadWritten(ps[0], "," + WriteAll(ps[1..]));
        assert ("," + WriteAll(ps[1..]))[1..] == WriteAll(ps[1..]);
        ParseOfWriteAll(ps[1..], options[ps[0].key := ps[0].value]);
      }
    }
  }

  lemma WriteParamNotEmpty(p: Param)
    ensures WriteParam(p) != ""
  {
  }

  lemma ParseNothing(options: map<string, string>)
    ensures Parse("", options) == options
  {
  }

  /** Only the keys of the parameters are added, and no other option changes. */
  lemma {:induction false} CollectKeys(ps: seq<Param>, options: map<string, string>)
    ensures Collect(ps, options).Keys == options.Keys + (set p | p in ps :: p.key)
  {
    if ps != [] {
      CollectKeys(ps[1..], options[ps[0].key := ps[0].value]);
      assert ps == [ps[0]] + ps[1..];
    }
  }

  lemma {:induction false} CollectKeeps(ps: seq<Param>, options: map<string, string>, key: string)
    requires key in options && forall j :: 0 <= j < |ps| ==> ps[j].key != key
    ensures key in Collect(ps, options) && Collect(ps, options)[key] == options[key]
  {
    if ps != [] {
      CollectKeeps(ps[1..], options[ps[0].key := ps[0].value], key);
    }
  }

  /** With distinct keys each parameter keeps its value. */
  lemma {:induction false} CollectDistinct(ps: seq<Param>, options: map<string, string>, i: nat)
    requires forall j, k :: 0 <= j < k < |ps| ==> ps[j].key != ps[k].key
    requires i < |ps|
    ensures ps[i].key in Collect(ps, options) && Collect(ps, options)[ps[i].key] == ps[i].value
  {
    var more := options[ps[0].key := ps[0].value];
    if i == 0 {
      CollectKeeps(ps[1..], more, ps[0].key);
    } else {
      CollectDistinct(ps[1..], more, i - 1);
    }
  }

  // ---- The quality of protection -----------------------------------------------------------------

  function Split(q: string): seq<string> {
    if Until(q, ',') == |q| then [q] else [q[..Until(q, ',')]] + Split(q[Until(q, ',') + 1..])
  }

  function Join(pieces: seq<string>): string {
    if pieces == [] then "" else if |pieces| == 1 then pieces[0] else pieces[0] + ("," + Join(pieces[1..]))
  }

  lemma {:induction false} UntilStops(q: string, c: char)
    ensures c !in q[..Until(q, c)] && (Until(q, c) < |q| ==> q[Until(q, c)] == c)
  {
    if q != "" && q[0] != c {
      UntilStops(q[1..], c);
      assert q[..Until(q, c)] == [q[0]] + q[1..][..Until(q[1..], c)];
    }
  }

  /** The pieces are what the commas separate. */
  lemma {:induction false} SplitIsSplit(q: string)
    ensures Join(Split(q)) == q && forall p :: p in Split(q) ==> ',' !in p
    decreases |q|
  {
    hide Split, Join, Until;
    UntilStops(q, ',');
    SplitStep(q);
    var n := Until(q, ',');
    if n < |q| {
      SplitIsSplit(q[n + 1..]);
      JoinStep(q[..n], Split(q[n + 1..]));
      assert q == q[..n] + ("," + q[n + 1..]);
    } else {
      assert [q] + [] == [q];
      JoinStep(q, []);
    }
  }

  lemma {:induction false} SplitStep(q: string)
    ensures Until(q, ',') == |q| ==> Split(q) == [q]
    ensures var n := Until(q, ',');
            n < |q| ==> Split(q[n + 1..]) != [] && Split(q) == [q[..n]] + Split(q[n + 1..])
  {
    hide Until;
  }

  lemma {:induction false} JoinStep(piece: string, pieces: seq<string>)
    ensures Join([piece] + pieces) == if pieces == [] then piece else piece + ("," + Join(pieces))
  {
    assert ([piece] + pieces)[1..] == pieces;
  }

  /** Only `auth` is supported: a challenge that asks for a quality of protection and does not list
      it has no usable options. */
  function Finish(options: map<string, string>): map<string, string> {
    if "qop" !in options || options["qop"] == "" then options
    else if "auth" in Split(options["qop"]) then options["qop" := "auth"] else map[]
  }

  /** One round of the parser in terms of positions in the challenge. */
  lemma ReadOptionAt(s: string, d: nat)
    requires d < |s|
    ensures var start := d + Blanks(s[d..]);
            var k := start + Until(s[start..], '=');
            if k + 1 >= |s| then ReadOption(s[d..]) == Stop
            else ReadOption(s[d..]) == ReadBody(s[start..k], s[k + 1..])
  {
    hide Blanks, Until, ReadBody;
    var challenge := s[d..];
    var start := d + Blanks(challenge);
    assert challenge[Blanks(challenge)..] == s[start..];
    var t := s[start..];
    var k := start + Until(t, '=');
    if k + 1 < |s| {
      assert t[..Until(t, '=')] == s[start..k];
      assert t[Until(t, '=') + 1..] == s[k + 1..];
    }
  }

  lemma AfterValueAt(s: string, from: nat, end: char)
    requires from < |s|
    ensures var stop := from + Value(s[from..], end).1;
            AfterValue(s[from..], end) == s[stop + Until(s[stop..], ',')..]
  {
    hide Until, Value;
    var v := s[from..];
    var stop := from + Value(v, end).1;
    assert v[Value(v, end).1..] == s[stop..];
    assert s[stop..][Until(s[stop..], ',')..] == s[stop + Until(s[stop..], ',')..];
  }

  /** The second half of a round, given the text of the value and what follows it up to the comma. */
  lemma BodyParts(key: string, body: string, text: string, rest: string, next: string)
    requires |body| > 0 && |text| > 0 && text == (if body[0] == '"' then body[1..] else body)
    requires rest == AfterValue(text, EndMark(body[0] == '"')) && next == if |rest| == 0 then rest else rest[1..]
    ensures ReadBody(key, body) == Found(key, Value(text, EndMark(body[0] == '"')).0, next)
  {
    hide Until, Value, AfterValue;
  }

  lemma ReadBodyStops(s: string, key: string, e: nat)
    requires e < |s| && s[e] == '"' && e + 1 == |s|
    ensures ReadBody(key, s[e..]) == Stop
  {
    assert s[e..] == "\"";
  }

  /** The same for the second half of the round: the value begins at `from` and ends at `stop`. */
  lemma ReadBodyAt(s: string, key: string, e: nat, from: nat, quote: bool, stop: nat, comma: nat)
    requires e < |s| && quote == (s[e] == '"') && from == (if quote then e + 1 else e) && from < |s|
    requires stop == from + Value(s[from..], EndMark(quote)).1 && comma == stop + Until(s[stop..], ',')
    ensures ReadBody(key, s[e..]) ==
            Found(key, Value(s[from..], EndMark(quote)).0, if comma < |s| then s[comma + 1..] else "")
  {
    hide *;
    FromAt(s, e, from);
    AfterValueAt(s, from, EndMark(quote));
    AfterComma(s, comma);
    BodyParts(key, s[e..], s[from..], s[comma..], if comma < |s| then s[comma + 1..] else "");
  }

  lemma FromAt(s: string, e: nat, from: nat)
    requires e < |s| && from == (if s[e] == '"' then e + 1 else e) && from < |s|
    ensures s[e..][0] == s[e] && s[from..] == if s[e] == '"' then s[e..][1..] else s[e..]
  {
  }

  lemma AfterComma(s: string, comma: nat)
    requires comma <= |s|
    ensures (if comma < |s| then s[comma + 1..] else "") == if |s[comma..]| == 0 then s[comma..] else s[comma..][1..]
  {
  }

  /** The loop over blanks. */
  method SkipBlanks(s: string, from: nat) returns (d: nat)
    requires from <= |s|
    ensures d == from + Blanks(s[from..])
    ensures d <= |s| && forall i :: from <= i < d ==> s[i] == ' ' || s[i] == '\n' || s[i] == '\r'
    ensures d < |s| ==> s[d] != ' ' && s[d] != '\n' && s[d] != '\r'
  {
    d := from;
    while d < |s| && IsBlank(s[d])
      invariant from <= d <= |s| && from + Blanks(s[from..]) == d + Blanks(s[d..])
      invariant forall i :: from <= i < d ==> IsBlank(s[i])
    {
      assert s[d..][1..] == s[d + 1..];
      d := d + 1;
    }
  }

  /** The loops up to a mark. */
  method FindChar(s: string, from: nat, c: char) returns (d: nat)
    requires from <= |s|
    ensures d == from + Until(s[from..], c)
    ensures d <= |s| && (forall i :: from <= i < d ==> s[i] != c) && (d < |s| ==> s[d] == c)
  {
    d := from;
    while d < |s| && s[d] != c
      invariant from <= d <= |s| && from + Until(s[from..], c) == d + Until(s[d..], c)
      invariant forall i :: from <= i < d ==> s[i] != c
    {
      assert s[d..][1..] == s[d + 1..];
      d := d + 1;
    }
  }

  /** What a value will be once its loop ends, and where, given what was read up to position `d`. */
  function Pending(value: string, s: string, d: nat, end: char): (string, nat)
    requires d <= |s|
  {
    (value + Value(s[d..], end).0, d + Value(s[d..], end).1)
  }

  /** What one pass over the loop of a value does. */
  lemma PendingStep(value: string, s: string, d: nat, end: char)
    requires d < |s|
    ensures Pending(value, s, d, end) ==
            if s[d] == '\\' && d + 1 < |s| then Pending(value + [s[d + 1]], s, d + 2, end)
            else if s[d] == end then (value, d)
            else Pending(value + [s[d]], s, d + 1, end)
  {
    var t := s[d..];
    assert t[1..] == s[d + 1..];
    if s[d] == '\\' && d + 1 < |s| {
      assert t[2..] == s[d + 2..];
      assert value + ([t[1]] + Value(t[2..], end).0) == value + [t[1]] + Value(t[2..], end).0;
    } else if s[d] == end {
      assert value + "" == value;
    } else {
      assert value + ([t[0]] + Value(t[1..], end).0) == value + [t[0]] + Value(t[1..], end).0;
    }
  }

  lemma PendingEnds(value: string, s: string, end: char)
    ensures Pending(value, s, |s|, end) == (value, |s|)
  {
    assert value + "" == value;
  }

  /** The loop over the characters of a value. */
  method ReadValue(s: string, from: nat, quote: bool) returns (value: string, d: nat)
    requires from <= |s|
    ensures value == Value(s[from..], EndMark(quote)).0 && d == from + Value(s[from..], EndMark(quote)).1
  {
    d := from;
    value := "";
    ghost var goal := Pending("", s, from, EndMark(quote));
    assert "" + Value(s[from..], EndMark(quote)).0 == Value(s[from..], EndMark(quote)).0;
    hide Value, Pending;
    while d < |s|
      invariant from <= d <= |s|
      invariant goal == Pending(value, s, d, EndMark(quote))
      decreases |s| - d
    {
      var backslash := false;
      PendingStep(value, s, d, EndMark(quote));
      if s[d] == '\\' && d < |s| - 1 {
        d := d + 1;
        backslash := true;
      }
      if !backslash {
        if s[d] == EndMark(quote) {
          break;
        }
      }
      value := value + [s[d]];
      d := d + 1;
    }
    PendingEnds(value, s, EndMark(quote));
  }

  /** A value without backslashes is what stands before the first end mark. */
  lemma {:induction false} PlainValue(t: string, n: nat, quote: bool)
    requires n <= |t| && (n < |t| ==> t[n] == if quote then '"' else ',')
    requires forall i :: 0 <= i < n ==> t[i] != '\\' && t[i] != if quote then '"' else ','
    ensures Value(t, EndMark(quote)) == (t[..n], n)
  {
    if n > 0 {
      PlainValue(t[1..], n - 1, quote);
      assert t[..n] == [t[0]] + t[1..][..n - 1];
    }
  }

  /** A challenge that ends at a mark, or has none, has no more options. */
  lemma NoMoreOptions(gap: string, key: string, options: map<string, string>)
    requires Blanks(gap) == |gap| && '=' !in key && (key != "" ==> !IsBlank(key[0]))
    ensures Parse(gap + key, options) == options == Parse(gap + (key + "="), options)
  {
    hide Blanks, Until;
    BlanksInFront(gap, key);
    BlanksInFront(gap, key + "=");
    assert (gap + key)[|gap|..] == key && (gap + (key + "="))[|gap|..] == key + "=";
    UntilMark(key, '=', "=");
    UntilNone(key, '=');
  }

  lemma ParseRound(challenge: string, options: map<string, string>)
    requires challenge != ""
    ensures match ReadOption(challenge)
            case Stop => Parse(challenge, options) == options
            case Found(key, value, rest) => Parse(challenge, options) == Parse(rest, options[key := value])
  {
  }

  /** The second half of a round: the value from position `e` on, and the position after the comma. */
  method ReadOneBody(challenge: string, ghost key: string, e: nat) returns (found: bool, value: string, d: nat)
    requires e < |challenge|
    ensures e <= d
    ensures ReadBody(key, challenge[e..]) ==
            if found then Found(key, value, if d <= |challenge| then challenge[d..] else "") else Stop
  {
    hide *;
    value := "";
    var quote := challenge[e] == '"';
    d := if quote then e + 1 else e;
    found := d < |challenge|;
    if found {
      ghost var from := d;
      value, d := ReadValue(challenge, d, quote);
      ghost var stop := d;
      d := FindChar(challenge, d, ',');
      ReadBodyAt(challenge, key, e, from, quote, stop, d);
      d := d + 1;
    } else {
      ReadBodyStops(challenge, key, e);
    }
  }

  /** One round of the loop over the options. */
  method ReadOneOption(challenge: string, from: nat) returns (found: bool, key: string, value: string, d: nat)
    requires from < |challenge|
    ensures from < d
    ensures ReadOption(challenge[from..]) ==
            if found then Found(key, value, if d <= |challenge| then challenge[d..] else "") else Stop
  {
    hide *;
    ReadOptionAt(challenge, from);
    var start := SkipBlanks(challenge, from);
    d := FindChar(challenge, start, '=');
    key := challenge[start..d];
    d := d + 1;
    found, value := false, "";
    if d < |challenge| {
      found, value, d := ReadOneBody(challenge, key, d);
    }
  }

  /** The loop over the options. */
  method ReadOptions(challenge: string) returns (options: map<string, string>)
    ensures options == Parse(challenge, map[])
  {
    hide Parse, ReadOption;
    options := map[];
    var d, end := 0, |challenge|;
    assert challenge[0..] == challenge;
    while d < end
      invariant Parse(challenge, map[]) == Parse(if d <= end then challenge[d..] else "", options)
      decreases end - d
    {
      ParseRound(challenge[d..], options);
      var found, key, value, next := ReadOneOption(challenge, d);
      if !found {
        return;
      }
      d := next;
      options := options[key := value];
    }
    assert d <= end ==> challenge[d..] == "";
    ParseNothing(options);
  }

  /** The options, narrowed to the one quality of protection that is supported. */
  method ParseDigestAuthenticationChallenge(challenge: string) returns (options: map<string, string>)
    ensures options == Finish(Parse(challenge, map[]))
    ensures var read := Parse(challenge, map[]);
            var qop := if "qop" in read then read["qop"] else "";
            options == if qop == "" then read else if "auth" in Split(qop) then read["qop" := "auth"] else map[]
  {
    hide Parse, Split;
    options := ReadOptions(challenge);
    var qop := if "qop" in options then options["qop"] else "";
    if qop != "" {
      var qopoptions := Split(qop);
      if "auth" !in qopoptions {
        options := map[];
        return;
      }
      options := options["qop" := "auth"];
    }
  }

  predicate AsksForQop(p: Param) {
    p.key == "qop" && p.value != ""
  }

  predicate ListsAuth(p: Param) {
    "auth" in Split(p.value)
  }

  /** The keys and values of the parameters, a requested quality of protection replaced by `auth`. */
  predicate IsMapOf(options: map<string, string>, ps: seq<Param>) {
    && options.Keys == (set p | p in ps :: p.key)
    && (forall p :: p in ps ==> p.key in options && options[p.key] == (if AsksForQop(p) then "auth" else p.value))
  }

  /** For every list of writable parameters with distinct keys, the parser returns exactly them, but
      for a quality of protection: one that lists `auth` becomes it, any other leaves nothing. */
  method ParseWhatWasWritten(ps: seq<Param>) returns (options: map<string, string>)
    requires forall p :: p in ps ==> Writable(p)
    requires forall j, k :: 0 <= j < k < |ps| ==> ps[j].key != ps[k].key
    ensures (forall p :: p in ps && AsksForQop(p) ==> ListsAuth(p)) ==> IsMapOf(options, ps)
    ensures (exists p :: p in ps && AsksForQop(p) && !ListsAuth(p)) ==> options == map[]
  {
    options := ParseDigestAuthenticationChallenge(WriteAll(ps));
    hide Parse, WriteAll, Split, Writable, Collect;
    ParseOfWriteAll(ps, map[]);
    CollectKeys(ps, map[]);
    forall i | 0 <= i < |ps|
      ensures ps[i].key in Collect(ps, map[]) && Collect(ps, map[])[ps[i].key] == ps[i].value
    {
      CollectDistinct(ps, map[], i);
    }
  }

  // ---- Choosing a scheme -------------------------------------------------------------------------

  datatype Method = None | Basic | Ntlm | DigestMd5 {
    /** The order of the enumeration in the source, which has others in between. */
    function Rank(): int {
      match this case None => 0 case Basic => 1 case Ntlm => 4 case DigestMd5 => 6
    }
  }

  datatype Header = Header(name: string, value: string)

  function Lower(s: string): string {
    if s == "" then "" else [if 'A' <= s[0] <= 'Z' then ((s[0] as int) + 32) as char else s[0]] + Lower(s[1..])
  }

  /** The scheme a header value starts with. */
  function Scheme(value: string): Method {
    var v := Lower(value);
    if "digest" <= v then DigestMd5 else if "ntlm" <= v then Ntlm else if "basic" <= v then Basic else None
  }

  /** What follows the scheme's name and a blank: `mid(6)`, `mid(5)`, `mid(7)`. */
  function Tail(value: string, m: Method): string {
    var n := match m case Basic => 6 case Ntlm => 5 case DigestMd5 => 7 case None => 0;
    if n <= |value| then value[n..] else ""
  }

  function Stronger(a: Method, b: Method): Method {
    if a.Rank() >= b.Rank() then a else b
  }

  /** The scheme one header offers for the kind of authentication asked for. */
  function Offer(h: Header, search: string): Method {
    if Lower(h.name) == search then Scheme(h.value) else None
  }

  /** The strongest scheme offered. */
  function Best(headers: seq<Header>, search: string): Method {
    if headers == [] then None
    else Stronger(Best(headers[..|headers| - 1], search), Offer(headers[|headers| - 1], search))
  }

  lemma {:induction false} BestIsStrongest(headers: seq<Header>, search: string)
    ensures forall h :: h in headers ==> Offer(h, search).Rank() <= Best(headers, search).Rank()
    ensures Best(headers, search) == None || exists h :: h in headers && Offer(h, search) == Best(headers, search)
  {
    if headers != [] {
      var n := |headers| - 1;
      BestIsStrongest(headers[..n], search);
      assert headers == headers[..n] + [headers[n]];
    }
  }

  /** The order of the headers does not matter for the scheme. */
  lemma BestIgnoresOrder(a: seq<Header>, b: seq<Header>, search: string)
    requires multiset(a) == multiset(b)
    ensures Best(a, search) == Best(b, search)
  {
    hide Offer, Best;
    BestIsStrongest(a, search);
    BestIsStrongest(b, search);
    assert forall h :: h in a <==> h in multiset(a);
    assert forall h :: h in b <==> h in multiset(b);
    SameRank(Best(a, search), Best(b, search));
  }

  lemma SameRank(a: Method, b: Method)
    ensures a.Rank() == b.Rank() ==> a == b
    ensures None.Rank() <= a.Rank()
  {
  }

  /** Letters become small ones, one by one. */
  lemma {:induction false} LowerIs(s: string)
    ensures |Lower(s)| == |s|
    ensures forall i :: 0 <= i < |s| ==>
              Lower(s)[i] == if 'A' <= s[i] <= 'Z' then (s[i] as int - 'A' as int + 'a' as int) as char else s[i]
  {
    if s != "" {
      LowerIs(s[1..]);
      assert forall i :: 1 <= i < |s| ==> s[i] == s[1..][i - 1] && Lower(s)[i] == Lower(s[1..])[i - 1];
    }
  }

  /** A header of the kind asked for names the scheme. */
  predicate Names(h: Header, search: string, scheme: string) {
    Lower(h.name) == search && scheme <= Lower(h.value)
  }

  ghost predicate SomeNames(headers: seq<Header>, search: string, scheme: string) {
    exists i :: 0 <= i < |headers| && Names(headers[i], search, scheme)
  }

  /** `text` is what follows the scheme's name and one character in the first header that names it. */
  ghost predicate FollowsFirst(headers: seq<Header>, search: string, scheme: string, text: string) {
    exists i :: 0 <= i < |headers| && Names(headers[i], search, scheme)
                && (forall j :: 0 <= j < i ==> !Names(headers[j], search, scheme))
                && text == if |headers[i].value| <= |scheme| then "" else headers[i].value[|scheme| + 1..]
  }

  /** The choice in terms of the names in the headers: Digest before NTLM before Basic. */
  lemma ChosenMeans(headers: seq<Header>, search: string, m: Method, text: string)
    requires Chosen(headers, search, m, text)
    ensures m == DigestMd5 <==> SomeNames(headers, search, "digest")
    ensures m == Ntlm <==> !SomeNames(headers, search, "digest") && SomeNames(headers, search, "ntlm")
    ensures m == Basic <==>
            && !SomeNames(headers, search, "digest") && !SomeNames(headers, search, "ntlm")
            && SomeNames(headers, search, "basic")
    ensures m == DigestMd5 ==> FollowsFirst(headers, search, "digest", text)
    ensures m == Ntlm ==> FollowsFirst(headers, search, "ntlm", text)
    ensures m == Basic ==> FollowsFirst(headers, search, "basic", text)
    ensures m == None ==> text == ""
  {
    hide Best, Offer, Names, IsFirstOffer, FollowsFirst;
    BestIsStrongest(headers, search);
    forall i | 0 <= i < |headers|
      ensures headers[i] in headers && Offer(headers[i], search).Rank() <= m.Rank()
      ensures Offer(headers[i], search) == DigestMd5 <==> Names(headers[i], search, "digest")
      ensures Offer(headers[i], search) == Ntlm <==> Names(headers[i], search, "ntlm")
      ensures Offer(headers[i], search) == Basic <==> Names(headers[i], search, "basic")
    {
      OfferNames(headers[i], search);
    }
    if m != None {
      var i :| IsFirstOffer(headers, search, i, m, text);
      FirstOfferFollows(headers, search, i, m, text);
    }
  }

  lemma OfferNames(h: Header, search: string)
    ensures Offer(h, search) == DigestMd5 <==> Names(h, search, "digest")
    ensures Offer(h, search) == Ntlm <==> Names(h, search, "ntlm")
    ensures Offer(h, search) == Basic <==> Names(h, search, "basic")
  {
    hide Lower;
    OneScheme(Lower(h.value));
  }

  function NameOf(m: Method): string {
    match m case None => "" case Basic => "basic" case Ntlm => "ntlm" case DigestMd5 => "digest"
  }

  lemma FirstOfferFollows(headers: seq<Header>, search: string, i: int, m: Method, text: string)
    requires IsFirstOffer(headers, search, i, m, text) && m != None
    ensures 0 <= i < |headers| && Offer(headers[i], search) == m
    ensures FollowsFirst(headers, search, NameOf(m), text)
  {
    hide Offer, Names;
    forall j | 0 <= j <= i
      ensures Offer(headers[j], search) == m <==> Names(headers[j], search, NameOf(m))
    {
      OfferNames(headers[j], search);
    }
  }

  /** Header `i` is the first that offers `m`, and `text` follows the scheme's name in it. */
  ghost predicate IsFirstOffer(headers: seq<Header>, search: string, i: int, m: Method, text: string) {
    && 0 <= i < |headers| && Offer(headers[i], search) == m && text == Tail(headers[i].value, m)
    && (forall j :: 0 <= j < i ==> Offer(headers[j], search) != m)
  }

  /** What is known after the headers so far. */
  ghost predicate Chosen(headers: seq<Header>, search: string, m: Method, text: string) {
    && m == Best(headers, search)
    && (m == None ==> text == "")
    && (m != None ==> (exists i :: IsFirstOffer(headers, search, i, m, text)))
  }

  /** One more header: the choice changes when it offers something stronger. */
  lemma ChosenStep(headers: seq<Header>, h: Header, search: string, m: Method, text: string)
    requires Chosen(headers, search, m, text)
    ensures if Offer(h, search).Rank() > m.Rank()
            then Chosen(headers + [h], search, Offer(h, search), Tail(h.value, Offer(h, search)))
            else Chosen(headers + [h], search, m, text)
  {
    hide Offer, Tail;
    var all := headers + [h];
    var n := |headers|;
    assert all[..n] == headers && all[n] == h;
    BestIsStrongest(headers, search);
    SameRank(m, Offer(h, search));
    if Offer(h, search).Rank() > m.Rank() {
      assert IsFirstOffer(all, search, n, Offer(h, search), Tail(h.value, Offer(h, search)));
    } else if m != None {
      var k :| IsFirstOffer(headers, search, k, m, text);
      assert IsFirstOffer(all, search, k, m, text);
    }
  }

  /** The loop over the headers: the strongest scheme, and the text of the first header with it. */
  method ChooseMethod(headers: seq<Header>, isProxy: bool) returns (chosen: Method, headerVal: string)
    ensures Chosen(headers, if isProxy then "proxy-authenticate" else "www-authenticate", chosen, headerVal)
    ensures var search := if isProxy then "proxy-authenticate" else "www-authenticate";
            if SomeNames(headers, search, "digest") then
              chosen == DigestMd5 && FollowsFirst(headers, search, "digest", headerVal)
            else if SomeNames(headers, search, "ntlm") then
              chosen == Ntlm && FollowsFirst(headers, search, "ntlm", headerVal)
            else if SomeNames(headers, search, "basic") then
              chosen == Basic && FollowsFirst(headers, search, "basic", headerVal)
            else chosen == None && headerVal == ""
  {
    var search := if isProxy then "proxy-authenticate" else "www-authenticate";
    chosen, headerVal := None, "";
    hide Lower, Tail, Chosen, SomeNames, FollowsFirst;
    NoneChosen(search);
    for i := 0 to |headers|
      invariant Chosen(headers[..i], search, chosen, headerVal)
    {
      assert headers[..i + 1] == headers[..i] + [headers[i]];
      ChosenStep(headers[..i], headers[i], search, chosen, headerVal);
      var current := headers[i];
      if Lower(current.name) == search {
        var str := Lower(current.value);
        OneScheme(str);
        if chosen.Rank() < Basic.Rank() && "basic" <= str {
          chosen := Basic;
          headerVal := Tail(current.value, Basic);
        } else if chosen.Rank() < Ntlm.Rank() && "ntlm" <= str {
          chosen := Ntlm;
          headerVal := Tail(current.value, Ntlm);
        } else if chosen.Rank() < DigestMd5.Rank() && "digest" <= str {
          chosen := DigestMd5;
          headerVal := Tail(current.value, DigestMd5);
        }
      }
    }
    assert headers[..|headers|] == headers;
    ChosenMeans(headers, search, chosen, headerVal);
  }

  lemma NoneChosen(search: string)
    ensures Chosen([], search, None, "")
  {
  }

  /** No text starts with two of the schemes' names. */
  lemma OneScheme(str: string)
    ensures !("basic" <= str && "ntlm" <= str) && !("basic" <= str && "digest" <= str)
    ensures !("ntlm" <= str && "digest" <= str)
  {
    assert "basic" <= str ==> str[0] == "basic"[0];
    assert "ntlm" <= str ==> str[0] == "ntlm"[0];
    assert "digest" <= str ==> str[0] == "digest"[0];
  }
}
