/** The grouping key of a failure reason: hex addresses and long numbers, which vary
    from device to device for one fault, become placeholders. */
module ReasonKey {
  import opened Text

  /** The longest prefix of digits. */
  function DigitRun(s: string): (n: nat)
    ensures n <= |s|
  {
    if s == "" || !IsDigit(s[0]) then 0 else 1 + DigitRun(s[1..])
  }

  function HexRun(s: string): (n: nat)
    ensures n <= |s|
  {
    if s == "" || !IsHex(s[0]) then 0 else 1 + HexRun(s[1..])
  }

  /** The length of the hex address the text starts with, or zero. */
  function AddressLen(s: string): (n: nat)
    ensures n <= |s|
  {
    if |s| >= 3 && s[0] == '0' && (s[1] == 'x' || s[1] == 'X') && IsHex(s[2]) then 2 + HexRun(s[2..]) else 0
  }

  /** The first token: an address, else a run of digits, else one character. */
  function TokenLen(s: string): (n: nat)
    requires s != ""
    ensures 0 < n <= |s|
  {
    if AddressLen(s) > 0 then AddressLen(s) else if IsDigit(s[0]) then DigitRun(s) else 1
  }

  function TokenKey(s: string): string
    requires s != ""
  {
    if AddressLen(s) > 0 then "0x#"
    else if IsDigit(s[0]) && DigitRun(s) >= 4 then "#"
    else s[..TokenLen(s)]
  }

  function KeyOf(s: string): string {
    if s == "" then "" else TokenKey(s) + KeyOf(s[TokenLen(s)..])
  }

  // ---- Runs ----------------------------------------------------------------

  predicate AllDigits(s: string) {
    forall c <- s :: IsDigit(c)
  }

  lemma {:induction false} DigitRunSplits(run: string, rest: string)
    requires AllDigits(run) && (rest == "" || !IsDigit(rest[0]))
    ensures DigitRun(run + rest) == |run|
  {
    if run == "" {
      assert run + rest == rest;
    } else {
      assert (run + rest)[1..] == run[1..] + rest;
      DigitRunSplits(run[1..], rest);
    }
  }

  lemma {:induction false} DigitRunIsDigits(s: string)
    ensures AllDigits(s[..DigitRun(s)])
    ensures DigitRun(s) < |s| ==> !IsDigit(s[DigitRun(s)])
  {
    if s != "" && IsDigit(s[0]) {
      DigitRunIsDigits(s[1..]);
      assert s[..DigitRun(s)] == [s[0]] + s[1..][..DigitRun(s[1..])];
    }
  }

  // ---- Length --------------------------------------------------------------

  /** A key is never longer than its reason. */
  lemma {:induction false} KeyNeverLengthens(s: string)
    ensures |KeyOf(s)| <= |s|
    decreases |s|
  {
    if s != "" {
      KeyNeverLengthens(s[TokenLen(s)..]);
      assert |TokenKey(s)| <= TokenLen(s);
    }
  }

  // ---- Idempotence ---------------------------------------------------------

  lemma {:induction false} PlainFirst(c: char, rest: string)
    requires !IsDigit(c)
    ensures KeyOf([c] + rest) == [c] + KeyOf(rest)
  {
    var s := [c] + rest;
    assert s[..1] == [c] && s[1..] == rest;
  }

  /** A key starts with the character its reason starts with, unless that is a digit. */
  lemma {:induction false} KeyKeepsPlainHead(s: string)
    requires s != "" && !IsDigit(s[0])
    ensures KeyOf(s) == [s[0]] + KeyOf(s[1..])
  {
    assert s == [s[0]] + s[1..];
    PlainFirst(s[0], s[1..]);
  }

  /** A zero before an x and a hex digit: the start of an address. */
  predicate OpensAddress(run: string, rest: string) {
    run == "0" && |rest| >= 2 && (rest[0] == 'x' || rest[0] == 'X') && IsHex(rest[1])
  }

  /** A short run of digits that opens no address is its own key. */
  lemma {:induction false} ShortRunKept(run: string, rest: string)
    requires AllDigits(run) && 1 <= |run| <= 3 && (rest == "" || !IsDigit(rest[0]))
    requires !OpensAddress(run, rest)
    ensures KeyOf(run + rest) == run + KeyOf(rest)
  {
    var s := run + rest;
    DigitRunSplits(run, rest);
    assert |run| == 1 ==> s[1..] == rest;
    assert s[0] == run[0];
    assert s[..|run|] == run && s[|run|..] == rest;
  }

  /** A longer run becomes a hash. */
  lemma {:induction false} LongRunReplaced(run: string, rest: string)
    requires AllDigits(run) && |run| >= 4 && (rest == "" || !IsDigit(rest[0]))
    ensures KeyOf(run + rest) == "#" + KeyOf(rest)
  {
    var s := run + rest;
    DigitRunSplits(run, rest);
    assert s[0] == run[0] && s[1] == run[1];
    assert s[|run|..] == rest;
  }

  predicate AllHex(s: string) {
    forall c <- s :: IsHex(c)
  }

  lemma {:induction false} HexRunSplits(run: string, rest: string)
    requires AllHex(run) && (rest == "" || !IsHex(rest[0]))
    ensures HexRun(run + rest) == |run|
  {
    if run == "" {
      assert run + rest == rest;
    } else {
      assert (run + rest)[1..] == run[1..] + rest;
      HexRunSplits(run[1..], rest);
    }
  }

  /** An address, in either case, becomes one placeholder; with a short run, a longer one
      and any other character, this says what the key of every text is. */
  lemma {:induction false} AddressReplaced(x: char, digits: string, rest: string)
    requires (x == 'x' || x == 'X') && digits != "" && AllHex(digits) && (rest == "" || !IsHex(rest[0]))
    ensures KeyOf(['0', x] + digits + rest) == "0x#" + KeyOf(rest)
  {
    var s := ['0', x] + digits + rest;
    HexRunSplits(digits, rest);
    assert s[2..] == digits + rest && s[2] == digits[0];
    assert s[2 + |digits|..] == rest;
  }

  /** Keys are their own keys. */
  lemma {:induction false} KeyIdempotent(s: string)
    ensures KeyOf(KeyOf(s)) == KeyOf(s)
    decreases |s|
  {
    if s != "" {
      var n := TokenLen(s);
      var rest := s[n..];
      KeyIdempotent(rest);
      if AddressLen(s) > 0 {
        PlaceholderKept(KeyOf(rest));
      } else if !IsDigit(s[0]) {
        PlainFirst(s[0], KeyOf(rest));
      } else if n >= 4 {
        PlainFirst('#', KeyOf(rest));
      } else {
        DigitRunIsDigits(s);
        assert s == s[..n] + rest;
        NoNewAddress(s[..n], rest);
        ShortRunKept(s[..n], KeyOf(rest));
      }
    }
  }

  lemma {:induction false} PlaceholderKept(rest: string)
    ensures KeyOf("0x#" + rest) == "0x#" + KeyOf(rest)
  {
    var hash := ['#'] + rest;
    PlainFirst('#', rest);
    PlainFirst('x', hash);
    ZeroKept(['x'] + hash);
    Respell("0x#", rest);
    Respell("0x#", KeyOf(rest));
  }

  lemma {:induction false} ZeroKept(tail: string)
    requires |tail| >= 2 && !IsDigit(tail[0]) && !IsHex(tail[1])
    ensures KeyOf(['0'] + tail) == ['0'] + KeyOf(tail)
  {
    assert (['0'] + tail)[2] == tail[1];
    ShortRunKept(['0'], tail);
  }

  lemma Respell(three: string, rest: string)
    requires |three| == 3
    ensures three + rest == [three[0]] + ([three[1]] + ([three[2]] + rest))
  {
  }

  /** Replacing what follows a kept run by its key makes no address appear. */
  lemma {:induction false} NoNewAddress(run: string, rest: string)
    requires AllDigits(run) && 1 <= |run| && (rest == "" || !IsDigit(rest[0]))
    requires AddressLen(run + rest) == 0
    ensures AddressLen(run + KeyOf(rest)) == 0
    ensures KeyOf(rest) == "" || !IsDigit(KeyOf(rest)[0])
  {
    if rest != "" {
      KeyKeepsPlainHead(rest);
      var tail := rest[1..];
      var out := run + KeyOf(rest);
      if |run| >= 2 {
        assert out[1] == run[1] && IsDigit(run[1]);
      } else {
        assert out[1] == rest[0] && (run + rest)[1] == rest[0];
        if tail != "" && !IsDigit(tail[0]) {
          KeyKeepsPlainHead(tail);
          assert (run + rest)[2] == tail[0];
          assert out[2] == KeyOf(tail)[0] == tail[0];
        } else if tail != "" {
          assert (run + rest)[2] == tail[0];
        } else {
          assert KeyOf(tail) == "" && |out| == 2;
        }
      }
    }
  }

  // ---- Device values do not matter -----------------------------------------

  /** Scanning head + tail breaks exactly at the end of head. */
  predicate BreaksAt(head: string, tail: string)
    decreases |head|
  {
    head == "" || (TokenLen(head + tail) <= |head| && BreaksAt(head[TokenLen(head + tail)..], tail))
  }

  /** The key of the part before a break. */
  function HeadKey(head: string, tail: string): string
    requires BreaksAt(head, tail)
    decreases |head|
  {
    if head == "" then ""
    else TokenKey(head + tail) + HeadKey(head[TokenLen(head + tail)..], tail)
  }

  lemma {:induction false} KeySplitsAtBreak(head: string, tail: string)
    requires BreaksAt(head, tail)
    ensures KeyOf(head + tail) == HeadKey(head, tail) + KeyOf(tail)
    decreases |head|
  {
    if head == "" {
      assert head + tail == tail;
    } else {
      var n := TokenLen(head + tail);
      assert (head + tail)[n..] == head[n..] + tail;
      KeySplitsAtBreak(head[n..], tail);
      assert KeyOf(head + tail) == TokenKey(head + tail) + (HeadKey(head[n..], tail) + KeyOf(tail));
    }
  }

  lemma {:induction false} RunStopsInside(a: string, b: string, c: string)
    requires b != "" && c != "" && IsDigit(b[0]) && IsDigit(c[0])
    ensures DigitRun(a + b) <= |a| ==> DigitRun(a + c) == DigitRun(a + b)
    ensures HexRun(a + b) <= |a| ==> HexRun(a + c) == HexRun(a + b)
  {
    if a == "" {
      assert a + b == b && a + c == c;
    } else {
      assert (a + b)[1..] == a[1..] + b && (a + c)[1..] == a[1..] + c;
      RunStopsInside(a[1..], b, c);
    }
  }

  /** A token that ends before a digit does not depend on which digit it is, nor on
      what follows. */
  lemma TokenStopsInside(a: string, b: string, c: string)
    requires a != "" && b != "" && c != "" && IsDigit(b[0]) && IsDigit(c[0])
    requires TokenLen(a + b) <= |a|
    ensures TokenLen(a + c) == TokenLen(a + b) && TokenKey(a + c) == TokenKey(a + b)
  {
    RunStopsInside(a, b, c);
    if |a| >= 2 {
      assert (a + b)[2..] == a[2..] + b && (a + c)[2..] == a[2..] + c;
      RunStopsInside(a[2..], b, c);
      assert (a + b)[1] == a[1] == (a + c)[1];
      assert |a| >= 3 ==> (a + b)[2] == a[2] == (a + c)[2];
      assert |a| == 2 ==> (a + b)[2] == b[0] && (a + c)[2] == c[0];
    } else {
      assert (a + b)[1] == b[0] && (a + c)[1] == c[0];
    }
    var n := TokenLen(a + b);
    assert (a + b)[..n] == a[..n] == (a + c)[..n];
  }

  lemma {:induction false} BreakTransfers(head: string, b: string, c: string)
    requires b != "" && c != "" && IsDigit(b[0]) && IsDigit(c[0]) && BreaksAt(head, b)
    ensures BreaksAt(head, c) && HeadKey(head, c) == HeadKey(head, b)
    decreases |head|
  {
    if head != "" {
      TokenStopsInside(head, b, c);
      BreakTransfers(head[TokenLen(head + b)..], b, c);
    }
  }

  /** The text starts with a token that varies between devices: an address or a run
      of four or more digits. */
  predicate StartsDeviceValue(s: string) {
    s != "" && (AddressLen(s) > 0 || DigitRun(s) >= 4)
  }

  lemma DeviceValueKey(a: string, post: string)
    requires StartsDeviceValue(a + post) && TokenLen(a + post) == |a|
    ensures KeyOf(a + post) == (if AddressLen(a + post) > 0 then "0x#" else "#") + KeyOf(post)
  {
    assert (a + post)[|a|..] == post;
  }

  lemma DeviceValueStartsWithDigit(s: string)
    requires StartsDeviceValue(s)
    ensures IsDigit(s[0])
  {
  }

  /** Wherever the scan meets a device value, another of its kind gives the same key. */
  lemma {:induction false} DeviceValueReplaced(head: string, a: string, b: string, post: string)
    requires BreaksAt(head, a + post)
    requires StartsDeviceValue(a + post) && TokenLen(a + post) == |a|
    requires StartsDeviceValue(b + post) && TokenLen(b + post) == |b|
    requires AddressLen(a + post) > 0 <==> AddressLen(b + post) > 0
    ensures KeyOf(head + (a + post)) == KeyOf(head + (b + post))
  {
    DeviceValueStartsWithDigit(a + post);
    DeviceValueStartsWithDigit(b + post);
    BreakTransfers(head, a + post, b + post);
    KeySplitsAtBreak(head, a + post);
    KeySplitsAtBreak(head, b + post);
    DeviceValueKey(a, post);
    DeviceValueKey(b, post);
  }
}
