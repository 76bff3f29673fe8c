/**
 String keys built by joining fields with colons. Only the first field of such a key may
 itself contain a colon (contract symbols do), so the key still determines its fields.
 */
module Keys {
  import opened Core

  predicate NoColon(s: string) {
    ':' !in s
  }

  function Join(a: string, b: string): string {
    a + ":" + b
  }

  lemma JoinInjective(a: string, b: string, a': string, b': string)
    requires NoColon(b) && NoColon(b')
    ensures Join(a, b) == Join(a', b') <==> a == a' && b == b'
  {
    var s, s' := Join(a, b), Join(a', b');
    assert s[|a|] == ':' && s'[|a'|] == ':';
    assert forall i :: |a| < i < |s| ==> s[i] == b[i - |a| - 1];
    assert forall i :: |a'| < i < |s'| ==> s'[i] == b'[i - |a'| - 1];
    if s == s' {
      assert |a| == |a'|;
      assert a == s[..|a|] && a' == s'[..|a'|];
      assert b == s[|a| + 1..] && b' == s'[|a'| + 1..];
    }
  }

  datatype Exchange = Binance | Okx | Bitget | Mexc

  function ExchangeName(exchange: Exchange): (name: string)
    ensures NoColon(name)
  {
    match exchange
    case Binance => "binance"
    case Okx => "okx"
    case Bitget => "bitget"
    case Mexc => "mexc"
  }

  lemma ExchangeNameInjective(a: Exchange, b: Exchange)
    ensures ExchangeName(a) == ExchangeName(b) <==> a == b
  {
    assert |ExchangeName(a)| == |ExchangeName(b)| <==> a == b;
  }

  function TimeframeName(timeframe: Timeframe): (name: string)
    ensures NoColon(name)
  {
    match timeframe
    case D1 => "1D"
    case H1 => "1H"
    case M5 => "5M"
    case M1 => "1M"
  }

  lemma TimeframeNameInjective(a: Timeframe, b: Timeframe)
    ensures TimeframeName(a) == TimeframeName(b) <==> a == b
  {
    assert TimeframeName(a)[0] == TimeframeName(b)[0] && TimeframeName(a)[1] == TimeframeName(b)[1] <==> a == b;
  }

  // ---- Integers as decimal text ----

  function Digit(n: nat): char
    requires n < 10
  {
    '0' + n as char
  }

  function Digits(n: nat): (s: string)
    ensures NoColon(s) && s != []
    ensures forall i :: 0 <= i < |s| ==> s[i] != '-'
  {
    if n < 10 then [Digit(n)] else Digits(n / 10) + [Digit(n % 10)]
  }

  function IntText(n: int): (s: string)
    ensures NoColon(s)
  {
    if n < 0 then "-" + Digits(-n) else Digits(n)
  }

  lemma {:induction false} DigitsInjective(a: nat, b: nat)
    ensures Digits(a) == Digits(b) <==> a == b
  {
    var s, t := Digits(a), Digits(b);
    if s == t {
      assert s[|s| - 1] == Digit(a % 10) && t[|t| - 1] == Digit(b % 10);
      assert a % 10 == b % 10;
      if a >= 10 && b >= 10 {
        assert s[..|s| - 1] == Digits(a / 10) && t[..|t| - 1] == Digits(b / 10);
        DigitsInjective(a / 10, b / 10);
      } else {
        assert |s| == 1 && |t| == 1;
        assert a < 10 && b < 10;
      }
    }
  }

  lemma IntTextInjective(a: int, b: int)
    ensures IntText(a) == IntText(b) <==> a == b
  {
    if a < 0 && b < 0 {
      assert IntText(a)[1..] == Digits(-a) && IntText(b)[1..] == Digits(-b);
      DigitsInjective(-a, -b);
    } else if a >= 0 && b >= 0 {
      DigitsInjective(a, b);
    } else if a < 0 {
      assert IntText(a)[0] == '-' && IntText(b)[0] != '-';
    } else {
      assert IntText(b)[0] == '-' && IntText(a)[0] != '-';
    }
  }
}
