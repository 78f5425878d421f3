/** `AppCTXSettings.ensure_list`, the normalisation of the `TG_BOT_ADMINS`
    setting into a list of Telegram user ids (src/app/settings.py). */
module Settings {
  import opened Wrappers
  import Strings

  /** The Python values the validator can be handed. A `bool` is an `int`
      to `isinstance`, so it is kept, as the number it stands for. */
  datatype PyValue =
    | PyInt(i: int)
    | PyBool(b: bool)
    | PyStr(s: string)
    | PyList(items: seq<PyValue>)
    | PyNone
    | PyOther

  /** The integer a value stands for when `isinstance(v, int)` holds. */
  function IntOf(v: PyValue): (r: Option<int>)
    ensures r.Some? <==> (v.PyInt? || v.PyBool?)
    ensures v.PyInt? ==> r == Some(v.i)
  {
    match v
    case PyInt(i) => Some(i)
    case PyBool(b) => Some(if b then 1 else 0)
    case _ => None
  }

  /** The int elements of a list, in order. */
  function IntsOf(items: seq<PyValue>): seq<int> {
    if items == [] then []
    else
      var last := items[|items| - 1];
      IntsOf(items[..|items| - 1]) + (if IntOf(last).Some? then [IntOf(last).value] else [])
  }

  /** `IntsOf` keeps exactly the int elements: each result is one, and each
      one is in the result, in the order of the list. */
  lemma {:induction false} IntsOfSelects(items: seq<PyValue>)
    ensures var r := IntsOf(items);
            && |r| <= |items|
            && (forall k :: 0 <= k < |r| ==> exists i :: 0 <= i < |items| && IntOf(items[i]) == Some(r[k]))
            && (forall i :: 0 <= i < |items| && IntOf(items[i]).Some? ==> IntOf(items[i]).value in r)
            && (r == [] <==> forall i :: 0 <= i < |items| ==> IntOf(items[i]).None?)
  {
    if items != [] {
      var init, last := items[..|items| - 1], items[|items| - 1];
      IntsOfSelects(init);
      var r := IntsOf(items);
      var r0 := IntsOf(init);
      forall k | 0 <= k < |r| ensures exists i :: 0 <= i < |items| && IntOf(items[i]) == Some(r[k]) {
        if k < |r0| {
          var i :| 0 <= i < |init| && IntOf(init[i]) == Some(r0[k]);
          assert items[i] == init[i];
        } else {
          assert IntOf(items[|items| - 1]) == Some(r[k]);
        }
      }
      forall i | 0 <= i < |items| && IntOf(items[i]).Some? ensures IntOf(items[i]).value in r {
        if i < |init| {
          assert items[i] == init[i];
        }
      }
    }
  }

  /** `IntsOf` unfolded at its last element: an appended value adds its
      int, if it is one (from the empty list, the one-element case). */
  lemma IntsOfAppend(items: seq<PyValue>, v: PyValue)
    ensures IntsOf(items + [v]) == IntsOf(items) + (if IntOf(v).Some? then [IntOf(v).value] else [])
  {
    var u := items + [v];
    assert u[..|u| - 1] == items;
    assert u[|u| - 1] == v;
  }

  /** `IntsOf` works element by element: the ints of a concatenation are
      those of the first part followed by those of the second. */
  lemma {:induction false} IntsOfConcat(a: seq<PyValue>, b: seq<PyValue>)
    ensures IntsOf(a + b) == IntsOf(a) + IntsOf(b)
  {
    if b == [] {
      assert a + b == a;
    } else {
      var init, v := b[..|b| - 1], b[|b| - 1];
      var x := if IntOf(v).Some? then [IntOf(v).value] else [];
      assert b == init + [v];
      assert a + b == (a + init) + [v];
      IntsOfConcat(a, init);
      IntsOfAppend(a + init, v);
      IntsOfAppend(init, v);
      assert IntsOf(a + b) == (IntsOf(a) + IntsOf(init)) + x;
      ConcatAssoc(IntsOf(a), IntsOf(init), x);
    }
  }

  /** The characters `str.strip()` removes (the ASCII ones). */
  predicate IsSpace(c: char) {
    c == ' ' || c == '\t' || c == '\n' || c == '\r' || c == '\U{0B}' || c == '\U{0C}'
    || ('\U{1C}' <= c <= '\U{1F}')
  }

  function StripLeft(s: string): (r: string)
    ensures |r| <= |s| && r == s[|s| - |r|..]
    ensures r != [] ==> !IsSpace(r[0])
    ensures forall k :: 0 <= k < |s| - |r| ==> IsSpace(s[k])
  {
    if s != [] && IsSpace(s[0]) then StripLeft(s[1..]) else s
  }

  function StripRight(s: string): (r: string)
    ensures |r| <= |s| && r == s[..|r|]
    ensures r != [] ==> !IsSpace(r[|r| - 1])
    ensures forall k :: |r| <= k < |s| ==> IsSpace(s[k])
  {
    if s != [] && IsSpace(s[|s| - 1]) then StripRight(s[..|s| - 1]) else s
  }

  /** `str.strip()`. */
  function Strip(s: string): string {
    StripRight(StripLeft(s))
  }

  /** `str.isdigit()` for ASCII: non-empty and all digits. */
  predicate IsDigits(s: string) {
    s != [] && forall k :: 0 <= k < |s| ==> '0' <= s[k] <= '9'
  }

  /** `int(s)` for a string of decimal digits. */
  function DecimalValue(s: string): (n: nat)
    requires forall k :: 0 <= k < |s| ==> '0' <= s[k] <= '9'
  {
    if s == [] then 0
    else DecimalValue(s[..|s| - 1]) * 10 + (s[|s| - 1] as int - '0' as int)
  }

  /** `[int(v.strip()) for v in tokens if v.strip().isdigit()]`. */
  function ParseTokens(tokens: seq<string>): (r: seq<int>)
    ensures |r| <= |tokens|
    ensures forall k :: 0 <= k < |r| ==> r[k] >= 0
  {
    if tokens == [] then []
    else
      var t := Strip(tokens[|tokens| - 1]);
      ParseTokens(tokens[..|tokens| - 1]) + (if IsDigits(t) then [DecimalValue(t)] else [])
  }

  /** The string branch: split on ",", strip, keep the digit-only tokens. */
  function ParseAdminIds(s: string): (r: seq<int>)
    ensures forall k :: 0 <= k < |r| ==> r[k] >= 0
  {
    ParseTokens(Strings.Split(s, ','))
  }

  /** `ensure_list`: a list gives its int elements in order, a string its
      digit-only comma-separated tokens, an int (or bool) itself, anything
      else nothing. */
  method EnsureList(value: PyValue) returns (result: seq<int>)
    ensures value.PyList? ==> result == IntsOf(value.items)
    ensures value.PyStr? ==> result == ParseAdminIds(value.s)
    ensures (value.PyInt? || value.PyBool?) ==> result == [IntOf(value).value]
    ensures (value.PyNone? || value.PyOther?) ==> result == []
  {
    result := [];
    match value {
      case PyList(items) =>
        var i := 0;
        while i < |items|
          invariant 0 <= i <= |items|
          invariant result == IntsOf(items[..i])
        {
          assert items[..i + 1][..i] == items[..i];
          var v := IntOf(items[i]);
          if v.Some? {
            result := result + [v.value];
          }
          i := i + 1;
        }
        assert items[..i] == items;
      case PyStr(s) =>
        result := ParseAdminIds(s);
      case PyInt(i) =>
        result := [i];
      case PyBool(b) =>
        result := [if b then 1 else 0];
      case PyNone =>
      case PyOther =>
    }
  }

  /** Every character of `p` has the property `ok`. */
  predicate AllChars(p: string, ok: char -> bool) {
    forall j :: 0 <= j < |p| ==> ok(p[j])
  }

  /** When every character of a string has a property, so does every
      character of every piece of its split. */
  lemma {:induction false} SplitKeepsCharProperty(s: string, sep: char, ok: char -> bool)
    requires AllChars(s, ok)
    ensures forall k :: 0 <= k < |Strings.Split(s, sep)| ==> AllChars(Strings.Split(s, sep)[k], ok)
  {
    if s != [] {
      assert AllChars(s[1..], ok);
      SplitKeepsCharProperty(s[1..], sep, ok);
      var rest := Strings.Split(s[1..], sep);
      var r := Strings.Split(s, sep);
      if s[0] == sep {
        assert r == [""] + rest;
        forall k | 0 <= k < |r| ensures AllChars(r[k], ok) {
          if k > 0 {
            assert r[k] == rest[k - 1];
          }
        }
      } else {
        assert r == [[s[0]] + rest[0]] + rest[1..];
        assert AllChars(rest[0], ok);
        assert AllChars([s[0]] + rest[0], ok);
        forall k | 0 <= k < |r| ensures AllChars(r[k], ok) {
          if k > 0 {
            assert r[k] == rest[k];
          }
        }
      }
    }
  }

  /** A string of commas and blanks lists no administrator. */
  lemma BlankInputGivesNothing(s: string)
    requires forall k :: 0 <= k < |s| ==> s[k] == ',' || IsSpace(s[k])
    ensures ParseAdminIds(s) == []
  {
    var pieces := Strings.Split(s, ',');
    var blank := c => c == ',' || IsSpace(c);
    assert AllChars(s, blank);
    SplitKeepsCharProperty(s, ',', blank);
    forall k | 0 <= k < |pieces| ensures !IsDigits(Strip(pieces[k])) {
      var p := pieces[k];
      assert AllChars(p, blank);
      assert StripLeft(p) == [];
    }
    NoDigitTokens(pieces);
  }

  /** Tokens are parsed one by one: the ids of a concatenation are those of
      the first part followed by those of the second. */
  lemma {:induction false} ParseTokensConcat(a: seq<string>, b: seq<string>)
    ensures ParseTokens(a + b) == ParseTokens(a) + ParseTokens(b)
  {
    if b == [] {
      assert a + b == a;
    } else {
      var init, t := b[..|b| - 1], b[|b| - 1];
      var x := if IsDigits(Strip(t)) then [DecimalValue(Strip(t))] else [];
      assert b == init + [t];
      assert a + b == (a + init) + [t];
      ParseTokensConcat(a, init);
      ParseTokensAppend(a + init, t);
      ParseTokensAppend(init, t);
      assert ParseTokens(a + b) == (ParseTokens(a) + ParseTokens(init)) + x;
      ConcatAssoc(ParseTokens(a), ParseTokens(init), x);
    }
  }

  /** A token contributes its value where it stands when it is all digits
      after stripping, and nothing otherwise, whatever tokens surround it. */
  lemma {:induction false} TokenKeptOrDropped(a: seq<string>, t: string, b: seq<string>)
    ensures !IsDigits(Strip(t)) ==> ParseTokens(a + [t] + b) == ParseTokens(a) + ParseTokens(b)
    ensures IsDigits(Strip(t)) ==> ParseTokens(a + [t] + b) == ParseTokens(a) + [DecimalValue(Strip(t))] + ParseTokens(b)
  {
    var x := if IsDigits(Strip(t)) then [DecimalValue(Strip(t))] else [];
    ParseTokensConcat(a + [t], b);
    ParseTokensAppend(a, t);
    assert ParseTokens(a + [t] + b) == (ParseTokens(a) + x) + ParseTokens(b);
    if !IsDigits(Strip(t)) {
      assert ParseTokens(a) + x == ParseTokens(a);
    }
  }

  lemma ConcatAssoc(p: seq<int>, q: seq<int>, r: seq<int>)
    ensures (p + q) + r == p + (q + r)
  {
  }

  lemma {:induction false} NoDigitTokens(tokens: seq<string>)
    requires forall k :: 0 <= k < |tokens| ==> !IsDigits(Strip(tokens[k]))
    ensures ParseTokens(tokens) == []
  {
    if tokens != [] {
      NoDigitTokens(tokens[..|tokens| - 1]);
    }
  }

  /** The decimal digits of `n`, as `str(n)` writes them. */
  function Decimal(n: nat): (s: string)
    ensures IsDigits(s)
  {
    if n < 10 then [('0' as int + n) as char]
    else Decimal(n / 10) + [('0' as int + n % 10) as char]
  }

  lemma {:induction false} DecimalValueOfDecimal(n: nat)
    ensures DecimalValue(Decimal(n)) == n
  {
    if n >= 10 {
      DecimalValueOfDecimal(n / 10);
      var s := Decimal(n);
      assert s[..|s| - 1] == Decimal(n / 10);
    }
  }

  lemma DigitsUnstripped(d: string)
    requires IsDigits(d)
    ensures Strip(d) == d
  {
    assert '0' <= d[0] <= '9' && !IsSpace(d[0]);
    assert StripLeft(d) == d;
    assert '0' <= d[|d| - 1] <= '9' && !IsSpace(d[|d| - 1]);
    assert StripRight(d) == d;
  }

  function DecimalsOf(ids: seq<nat>): (r: seq<string>)
    ensures |r| == |ids|
    ensures forall k :: 0 <= k < |r| ==> r[k] == Decimal(ids[k])
  {
    if ids == [] then [] else DecimalsOf(ids[..|ids| - 1]) + [Decimal(ids[|ids| - 1])]
  }

  /** `ParseTokens` unfolded at its last token. */
  lemma ParseTokensAppend(tokens: seq<string>, t: string)
    ensures ParseTokens(tokens + [t])
            == ParseTokens(tokens) + (if IsDigits(Strip(t)) then [DecimalValue(Strip(t))] else [])
  {
    var u := tokens + [t];
    assert u[..|u| - 1] == tokens;
    assert u[|u| - 1] == t;
  }

  lemma {:induction false} ParseDecimals(ids: seq<nat>)
    ensures ParseTokens(DecimalsOf(ids)) == ids
  {
    if ids != [] {
      var init, n := ids[..|ids| - 1], ids[|ids| - 1];
      assert ids == init + [n];
      var d := Decimal(n);
      assert DecimalsOf(ids) == DecimalsOf(init) + [d];
      ParseDecimals(init);
      DigitsUnstripped(d);
      DecimalValueOfDecimal(n);
      ParseTokensAppend(DecimalsOf(init), d);
    }
  }

  /** Ids written out as "id1,id2,..." are read back as the same list. */
  lemma AdminIdsRoundTrip(ids: seq<nat>)
    ensures ParseAdminIds(Strings.Join(DecimalsOf(ids), ',')) == ids
  {
    var parts := DecimalsOf(ids);
    if ids == [] {
      assert Strings.Split("", ',') == [""];
      assert !IsDigits(Strip(""));
    } else {
      forall k | 0 <= k < |parts| ensures ',' !in parts[k] {
        assert IsDigits(parts[k]);
      }
      Strings.SplitJoin(parts, ',');
      ParseDecimals(ids);
    }
  }
}
