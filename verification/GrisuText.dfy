/** Writing the digits out as text, and what a reader of that text gets. */
module GrisuText {
  import opened Scaled
  import opened CachedPowers
  import opened Grisu
  import opened GrisuBounds
  import opened GrisuNearest

  // ----- a reader for decimal text -----

  /** number * 10^exponent */
  datatype Reading = Reading(number: int, exponent: int)

  /** Where c first occurs, or the length when it does not. */
  function Find(t: seq<char>, c: char): (r: nat)
    ensures r <= |t| && c !in t[..r] && (r < |t| ==> t[r] == c)
  {
    if t == [] || t[0] == c then 0 else
      var r := Find(t[1..], c) + 1;
      assert t[..r] == [t[0]] + t[1..][..r - 1];
      r
  }

  /** Digits with at most one point in them. */
  ghost function ReadFixed(t: seq<char>): Reading {
    var i := Find(t, '.');
    if i < |t| then Reading(Number(t[..i] + t[i + 1..]), i + 1 - |t|) else Reading(Number(t), 0)
  }

  ghost function ReadSigned(t: seq<char>): int {
    if t != [] && t[0] == '-' then -Number(t[1..])
    else if t != [] && t[0] == '+' then Number(t[1..])
    else Number(t)
  }

  /** A fixed-point number, with a power of ten after an 'e' if there is one. */
  ghost function ReadText(t: seq<char>): Reading {
    var i := Find(t, 'e');
    var fixed := ReadFixed(t[..i]);
    if i < |t| then Reading(fixed.number, fixed.exponent + ReadSigned(t[i + 1..])) else fixed
  }

  lemma {:induction false} FindAt(a: seq<char>, c: char, b: seq<char>)
    requires c !in a
    ensures Find(a + [c] + b, c) == |a|
  {
    if a != [] {
      assert (a + [c] + b)[1..] == a[1..] + [c] + b;
      FindAt(a[1..], c, b);
    }
  }

  lemma FindNone(a: seq<char>, c: char)
    requires c !in a
    ensures Find(a, c) == |a|
  {
  }

  lemma NoMarks(ds: seq<char>)
    requires AllDigits(ds)
    ensures 'e' !in ds && '.' !in ds
  {
  }

  function ZeroDigits(k: nat): (r: seq<char>)
    ensures |r| == k && AllDigits(r)
  {
    if k == 0 then [] else ZeroDigits(k - 1) + ['0']
  }

  lemma {:induction false} TrailingZeros(ds: seq<char>, k: nat)
    ensures Number(ds + ZeroDigits(k)) == Number(ds) * Pow10(k)
  {
    if k == 0 {
      assert ds + ZeroDigits(0) == ds;
    } else {
      assert ds + ZeroDigits(k) == (ds + ZeroDigits(k - 1)) + ['0'];
      NumberAppend(ds + ZeroDigits(k - 1), '0');
      TrailingZeros(ds, k - 1);
      Twice(Number(ds), Pow10(k - 1));
    }
  }

  lemma {:induction false} LeadingZeros(k: nat, ds: seq<char>)
    ensures Number(ZeroDigits(k) + ds) == Number(ds)
    decreases |ds|, k
  {
    if ds != [] {
      var front, last := ds[..|ds| - 1], ds[|ds| - 1];
      LeadingZeros(k, front);
      assert ds == front + [last];
      assert ZeroDigits(k) + ds == (ZeroDigits(k) + front) + [last];
      NumberAppend(ZeroDigits(k) + front, last);
      NumberAppend(front, last);
    } else if k > 0 {
      LeadingZeros(k - 1, []);
      assert ZeroDigits(k - 1) + [] == ZeroDigits(k - 1);
      assert ZeroDigits(k) + [] == ZeroDigits(k - 1) + ['0'];
      NumberAppend(ZeroDigits(k - 1), '0');
    } else {
      assert ZeroDigits(0) + [] == [];
    }
  }

  // ----- the four layouts -----

  lemma ReadPlain(ds: seq<char>, k: nat)
    requires AllDigits(ds)
    ensures ReadText(ds + ZeroDigits(k)) == Reading(Number(ds) * Pow10(k), 0)
  {
    var t := ds + ZeroDigits(k);
    NoMarks(t);
    FindNone(t, 'e');
    assert t[..|t|] == t;
    FindNone(t, '.');
    TrailingZeros(ds, k);
  }

  lemma ReadPointed(a: seq<char>, b: seq<char>)
    requires AllDigits(a) && AllDigits(b)
    ensures ReadFixed(a + ['.'] + b) == Reading(Number(a + b), -|b|)
    ensures 'e' !in a + ['.'] + b && ReadText(a + ['.'] + b) == Reading(Number(a + b), -|b|)
  {
    var t := a + ['.'] + b;
    NoMarks(a);
    NoMarks(b);
    FindAt(a, '.', b);
    assert t[..|a|] == a && t[|a| + 1..] == b;
    FindNone(t, 'e');
    assert t[..|t|] == t;
  }

  lemma ReadSmall(ds: seq<char>, zeros: nat)
    requires AllDigits(ds)
    ensures ReadText(['0'] + ['.'] + (ZeroDigits(zeros) + ds)) == Reading(Number(ds), -(zeros + |ds|))
  {
    ReadPointed(['0'], ZeroDigits(zeros) + ds);
    LeadingZeros(zeros, ds);
    assert ZeroDigits(1) == ['0'];
    LeadingZeros(1, ZeroDigits(zeros) + ds);
  }

  /** One digit, the rest behind a point if there is a rest, and the exponent with its sign. */
  ghost function Scientific(ds: seq<char>, sign: char, xs: seq<char>): seq<char>
    requires ds != []
  {
    Significand(ds) + ['e'] + ([sign] + xs)
  }

  ghost function Significand(ds: seq<char>): seq<char>
    requires ds != []
  {
    if |ds| > 1 then ds[..1] + ['.'] + ds[1..] else ds
  }

  lemma ReadSignificand(ds: seq<char>)
    requires ds != [] && AllDigits(ds)
    ensures ReadFixed(Significand(ds)) == Reading(Number(ds), 1 - |ds|) && 'e' !in Significand(ds)
  {
    if |ds| > 1 {
      var a, b := ds[..1], ds[1..];
      assert a + b == ds && Significand(ds) == a + ['.'] + b;
      ReadPointed(a, b);
    } else {
      ReadDigits(ds);
    }
  }

  lemma ReadDigits(ds: seq<char>)
    requires AllDigits(ds)
    ensures ReadFixed(ds) == Reading(Number(ds), 0) && 'e' !in ds
  {
    NoMarks(ds);
    FindNone(ds, '.');
  }

  lemma ReadScientific(ds: seq<char>, sign: char, xs: seq<char>, x: int)
    requires ds != [] && AllDigits(ds) && sign == (if x < 0 then '-' else '+')
    requires Number(xs) == if x < 0 then -x else x
    ensures ReadText(Scientific(ds, sign, xs)) == Reading(Number(ds), x + 1 - |ds|)
  {
    var s := Significand(ds);
    var t := Scientific(ds, sign, xs);
    ReadSignificand(ds);
    FindAt(s, 'e', [sign] + xs);
    assert t[..|s|] == s && t[|s| + 1..] == [sign] + xs;
    assert ([sign] + xs)[1..] == xs;
  }

  datatype Style = Plain | Pointed | WithExponent

  ghost function StyleOf(t: seq<char>): Style {
    if 'e' in t then WithExponent else if '.' in t then Pointed else Plain
  }

  /** No zero leads, except a single one before a point. */
  ghost predicate Trim(t: seq<char>) {
    t != [] && (t[0] == '0' ==> |t| > 1 && t[1] == '.')
  }

  lemma PlainStyle(ds: seq<char>, k: nat)
    requires AllDigits(ds)
    ensures StyleOf(ds + ZeroDigits(k)) == Plain
    ensures ds != [] && ds[0] != '0' ==> Trim(ds + ZeroDigits(k))
  {
    NoMarks(ds + ZeroDigits(k));
  }

  lemma PointedStyle(a: seq<char>, b: seq<char>)
    requires AllDigits(a) && AllDigits(b)
    ensures StyleOf(a + ['.'] + b) == Pointed
    ensures a != [] && (a[0] == '0' ==> |a| == 1) ==> Trim(a + ['.'] + b)
  {
    NoMarks(a);
    NoMarks(b);
    assert (a + ['.'] + b)[|a|] == '.';
  }

  lemma ExponentStyle(ds: seq<char>, sign: char, xs: seq<char>)
    requires ds != []
    ensures StyleOf(Scientific(ds, sign, xs)) == WithExponent
    ensures ds[0] != '0' ==> Trim(Scientific(ds, sign, xs))
  {
    var s, t := Significand(ds), Scientific(ds, sign, xs);
    assert t[0] == s[0] == ds[0];
    assert t[|s|] == 'e';
  }

  // ----- writing -----

  /** The buffer holds some text up to at, behind what was there before. */
  ghost predicate Holds(dest: array<char>, at: nat, prefix: seq<char>, text: seq<char>)
    reads dest
  {
    at <= dest.Length && dest[..at] == prefix + text
  }

  method PutChar(dest: array<char>, at: nat, c: char, ghost prefix: seq<char>, ghost text: seq<char>)
    returns (end: nat)
    requires at < dest.Length && Holds(dest, at, prefix, text)
    modifies dest
    ensures end == at + 1 && Holds(dest, end, prefix, text + [c])
  {
    dest[at] := c;
    end := at + 1;
    assert dest[..end] == dest[..at] + [c];
  }

  method CopyDigits(dest: array<char>, at: nat, digits: array<char>, from: nat, to: nat,
                    ghost prefix: seq<char>, ghost text: seq<char>) returns (end: nat)
    requires dest != digits && from <= to <= digits.Length && at + (to - from) <= dest.Length
    requires Holds(dest, at, prefix, text)
    modifies dest
    ensures end == at + (to - from) && Holds(dest, end, prefix, text + digits[from..to])
  {
    var i := from;
    end := at;
    while i < to
      invariant from <= i <= to && end == at + (i - from)
      invariant Holds(dest, end, prefix, text + digits[from..i])
    {
      assert digits[from..i + 1] == digits[from..i] + [digits[i]];
      assert text + digits[from..i] + [digits[i]] == text + digits[from..i + 1];
      end := PutChar(dest, end, digits[i], prefix, text + digits[from..i]);
      i := i + 1;
    }
  }

  method PutZeros(dest: array<char>, at: nat, count: nat, ghost prefix: seq<char>, ghost text: seq<char>)
    returns (end: nat)
    requires at + count <= dest.Length && Holds(dest, at, prefix, text)
    modifies dest
    ensures end == at + count && Holds(dest, end, prefix, text + ZeroDigits(count))
  {
    var i := 0;
    end := at;
    while i < count
      invariant i <= count && end == at + i && Holds(dest, end, prefix, text + ZeroDigits(i))
    {
      assert text + ZeroDigits(i) + ['0'] == text + ZeroDigits(i + 1);
      end := PutChar(dest, end, '0', prefix, text + ZeroDigits(i));
      i := i + 1;
    }
  }

  /** One digit of the exponent xs, after the rest of the text. */
  method PutDigit(dest: array<char>, at: nat, digit: nat, ghost prefix: seq<char>, ghost text: seq<char>,
                  ghost xs: seq<char>) returns (end: nat, ghost ys: seq<char>)
    requires at < dest.Length && digit <= 9 && Holds(dest, at, prefix, text + xs) && AllDigits(xs)
    modifies dest
    ensures end == at + 1 && Holds(dest, end, prefix, text + ys) && |ys| == |xs| + 1
    ensures ys[0] == if xs == [] then (digit + 48) as char else xs[0]
    ensures AllDigits(ys) && Number(ys) == 10 * Number(xs) + digit
  {
    end := PutChar(dest, at, (digit + 48) as char, prefix, text + xs);
    ys := xs + [(digit + 48) as char];
    assert text + xs + [(digit + 48) as char] == text + ys;
    NumberAppend(xs, (digit + 48) as char);
  }

  /** The decimal exponent without leading zeros. */
  method PutExponent(dest: array<char>, at: nat, x: nat, ghost prefix: seq<char>, ghost text: seq<char>)
    returns (end: nat, ghost xs: seq<char>)
    requires x < 1000 && at + 3 <= dest.Length && Holds(dest, at, prefix, text)
    modifies dest
    ensures at <= end <= at + 3 && Holds(dest, end, prefix, text + xs)
    ensures AllDigits(xs) && Number(xs) == x && xs != [] && (xs[0] == '0' ==> x == 0 && |xs| == 1)
  {
    var exp, cent := x, 0;
    end, xs := at, [];
    assert text + [] == text;
    if exp > 99 {
      cent := exp / 100;
      end, xs := PutDigit(dest, end, cent, prefix, text, xs);
      exp := exp - cent * 100;
    }
    if exp > 9 {
      var dec := exp / 10;
      end, xs := PutDigit(dest, end, dec, prefix, text, xs);
      exp := exp - dec * 10;
    } else if cent != 0 {
      end, xs := PutDigit(dest, end, 0, prefix, text, xs);
    }
    end, xs := PutDigit(dest, end, exp % 10, prefix, text, xs);
  }

  function Absolute(x: int): nat {
    if x < 0 then -x else x
  }

  method EmitPlain(digits: array<char>, n: nat, dest: array<char>, at: nat, k: nat)
    returns (end: nat, ghost text: seq<char>)
    requires dest != digits && n <= digits.Length && at + n + k <= dest.Length && AllDigits(digits[..n])
    modifies dest
    ensures end == at + n + k && Holds(dest, end, old(dest[..at]), text)
    ensures StyleOf(text) == Plain && (n > 0 && digits[0] != '0' ==> Trim(text))
    ensures ReadText(text) == Reading(Number(digits[..n]) * Pow10(k), 0)
  {
    ghost var prefix, ds := dest[..at], digits[0..n];
    assert ds == digits[..n] && [] + ds == ds;
    end := CopyDigits(dest, at, digits, 0, n, prefix, []);
    end := PutZeros(dest, end, k, prefix, ds);
    text := ds + ZeroDigits(k);
    ReadPlain(ds, k);
    PlainStyle(ds, k);
  }

  /** A value below one: zeros after the point and then the digits. */
  method EmitSmall(digits: array<char>, n: nat, dest: array<char>, at: nat, zeros: nat)
    returns (end: nat, ghost text: seq<char>)
    requires dest != digits && n <= digits.Length && at + n + 2 + zeros <= dest.Length && AllDigits(digits[..n])
    modifies dest
    ensures end == at + n + 2 + zeros && Holds(dest, end, old(dest[..at]), text)
    ensures StyleOf(text) == Pointed && Trim(text)
    ensures ReadText(text) == Reading(Number(digits[..n]), -(zeros + n))
  {
    ghost var prefix, ds, t := dest[..at], digits[0..n], ['0'] + ['.'];
    assert ds == digits[..n] && [] + ['0'] == ['0'];
    end := PutChar(dest, at, '0', prefix, []);
    end := PutChar(dest, end, '.', prefix, ['0']);
    end := PutZeros(dest, end, zeros, prefix, t);
    end := CopyDigits(dest, end, digits, 0, n, prefix, t + ZeroDigits(zeros));
    text := t + (ZeroDigits(zeros) + ds);
    assert t + ZeroDigits(zeros) + ds == text;
    ReadSmall(ds, zeros);
    PointedStyle(['0'], ZeroDigits(zeros) + ds);
  }

  /** The point between the digits. */
  method EmitPoint(digits: array<char>, n: nat, dest: array<char>, at: nat, offset: nat)
    returns (end: nat, ghost text: seq<char>)
    requires dest != digits && offset <= n <= digits.Length && at + n + 1 <= dest.Length && AllDigits(digits[..n])
    modifies dest
    ensures end == at + n + 1 && Holds(dest, end, old(dest[..at]), text)
    ensures StyleOf(text) == Pointed && (offset > 0 && digits[0] != '0' ==> Trim(text))
    ensures ReadText(text) == Reading(Number(digits[..n]), offset - n)
  {
    ghost var prefix, a, b := dest[..at], digits[0..offset], digits[offset..n];
    assert [] + a == a && a + b == digits[..n];
    assert AllDigits(a) && AllDigits(b) by {
      forall i | 0 <= i < n ensures Digit(digits[i]) {
        assert Digit(digits[..n][i]);
      }
    }
    end := CopyDigits(dest, at, digits, 0, offset, prefix, []);
    end := PutChar(dest, end, '.', prefix, a);
    end := CopyDigits(dest, end, digits, offset, n, prefix, a + ['.']);
    text := a + ['.'] + b;
    ReadPointed(a, b);
    PointedStyle(a, b);
  }

  method EmitDecimal(digits: array<char>, n: nat, dest: array<char>, at: nat, k: int)
    returns (end: nat, ghost text: seq<char>)
    requires dest != digits && 0 < n <= digits.Length && k < 0 && AllDigits(digits[..n])
    requires at + n + 1 <= dest.Length && at + 2 - k <= dest.Length
    modifies dest
    ensures end <= at + (if n + k <= 0 then 2 - k else n + 1) && Holds(dest, end, old(dest[..at]), text)
    ensures StyleOf(text) == Pointed && (digits[0] != '0' ==> Trim(text))
    ensures ReadText(text) == Reading(Number(digits[..n]), k)
  {
    var offset := n - Absolute(k);
    if offset <= 0 {
      end, text := EmitSmall(digits, n, dest, at, -offset);
    } else {
      end, text := EmitPoint(digits, n, dest, at, offset);
    }
  }

  method EmitSignificand(digits: array<char>, n: nat, dest: array<char>, at: nat, ghost prefix: seq<char>)
    returns (end: nat)
    requires dest != digits && 0 < n <= digits.Length && at + n + 1 <= dest.Length && Holds(dest, at, prefix, [])
    modifies dest
    ensures at <= end <= at + n + 1 && Holds(dest, end, prefix, Significand(digits[..n]))
  {
    ghost var first := [digits[0]];
    assert [] + first == first && digits[..n][..1] == first && digits[..n][1..] == digits[1..n];
    end := PutChar(dest, at, digits[0], prefix, []);
    if n > 1 {
      end := PutChar(dest, end, '.', prefix, first);
      end := CopyDigits(dest, end, digits, 1, n, prefix, first + ['.']);
    }
  }

  function SignOf(x: int): char {
    if x < 0 then '-' else '+'
  }

  method EmitExponent(dest: array<char>, at: nat, x: int, ghost prefix: seq<char>, ghost text: seq<char>)
    returns (end: nat, ghost xs: seq<char>)
    requires -1000 < x < 1000 && at + 5 <= dest.Length && Holds(dest, at, prefix, text)
    modifies dest
    ensures at <= end <= at + 5 && Holds(dest, end, prefix, text + ['e'] + ([SignOf(x)] + xs))
    ensures AllDigits(xs) && Number(xs) == Absolute(x) && xs != [] && (xs[0] == '0' ==> x == 0 && |xs| == 1)
  {
    end := PutChar(dest, at, 'e', prefix, text);
    end := PutChar(dest, end, SignOf(x), prefix, text + ['e']);
    end, xs := PutExponent(dest, end, Absolute(x), prefix, text + ['e'] + [SignOf(x)]);
    assert text + ['e'] + [SignOf(x)] + xs == text + ['e'] + ([SignOf(x)] + xs);
  }

  method EmitScientific(digits: array<char>, n: nat, dest: array<char>, at: nat, k: int)
    returns (end: nat, ghost text: seq<char>)
    requires dest != digits && 0 < n <= digits.Length && -900 <= k + n <= 900 && AllDigits(digits[..n])
    requires at + n + 6 <= dest.Length
    modifies dest
    ensures at <= end <= at + n + 6 && Holds(dest, end, old(dest[..at]), text)
    ensures StyleOf(text) == WithExponent && (digits[0] != '0' ==> Trim(text))
    ensures ReadText(text) == Reading(Number(digits[..n]), k)
  {
    ghost var prefix, ds := dest[..at], digits[..n];
    assert prefix + [] == prefix;
    end := EmitSignificand(digits, n, dest, at, prefix);
    ghost var xs: seq<char>;
    end, xs := EmitExponent(dest, end, k + n - 1, prefix, Significand(ds));
    text := Scientific(ds, SignOf(k + n - 1), xs);
    ReadScientific(ds, SignOf(k + n - 1), xs, k + n - 1);
    ExponentStyle(ds, SignOf(k + n - 1), xs);
  }

  /** The text reads as n * 10^k, a plain integer with its zeros written out. */
  ghost predicate Writes(body: seq<char>, n: int, k: int) {
    ReadText(body) == Reading(n, k) || (k >= 0 && ReadText(body) == Reading(n * Pow10(k), 0))
  }

  /** Up to seven trailing zeros, six behind a sign; small negative powers with a point; otherwise an exponent. */
  ghost function StyleFor(n: nat, k: int, neg: bool): Style {
    if 0 <= k <= (if neg then 6 else 7) then Plain
    else if -7 < k < 0 || (k < 0 && -4 < k + n - 1 < 4) then Pointed
    else WithExponent
  }

  /** Writes n digits times 10^k after at, in the style due to it; the text always fits 24 characters. */
  method EmitDigits(digits: array<char>, n: nat, dest: array<char>, at: nat, k: int, neg: bool)
    returns (end: nat, ghost text: seq<char>)
    requires dest != digits && 0 < n <= 17 && n <= digits.Length && AllDigits(digits[..n]) && -400 <= k <= 400
    requires dest.Length >= 24 && at == if neg then 1 else 0
    modifies dest
    ensures end <= 24 && Holds(dest, end, old(dest[..at]), text)
    ensures Writes(text, Number(digits[..n]), k) && StyleOf(text) == StyleFor(n, k, neg)
    ensures digits[0] != '0' ==> Trim(text)
  {
    var exp := Absolute(k + n - 1);
    var maxTrailingZeros := if neg then 6 else 7;
    if k >= 0 && exp < n + maxTrailingZeros {
      end, text := EmitPlain(digits, n, dest, at, k);
      return;
    }
    if k < 0 && (k > -7 || exp < 4) {
      end, text := EmitDecimal(digits, n, dest, at, k);
      return;
    }
    var limit := if neg then 17 else 18;
    end, text := EmitScientific(digits, if n < limit then n else limit, dest, at, k);
  }

  // ----- the whole conversion -----

  /**
   What the text of a double must be behind its sign: a special text, or a decimal nearest to it alone that
   is chosen for its length and its distance.
   */
  ghost predicate Prints(body: seq<char>, biased: nat, fraction: nat, neg: bool)
    requires fraction < TWO_52 && biased <= 2047
  {
    if biased == 0 && fraction == 0 then body == ['0']
    else if biased == 2047 then body == if fraction != 0 then ['n', 'a', 'n'] else ['i', 'n', 'f']
    else PrintsFinite(body, BuildFp(fraction, biased), neg)
  }

  /** A number of this many digits. */
  ghost predicate HasDigits(n: int, count: nat) {
    count > 0 && Pow10(count - 1) <= n < Pow10(count)
  }

  /** The decimal chosen for w, in the style due to its digits and its exponent. */
  ghost predicate Shows(body: seq<char>, w: Fp, neg: bool, n: int, k: int, count: nat) {
    && Selected(w.frac, w.exp, n, k) && HasDigits(n, count)
    && Writes(body, n, k) && StyleOf(body) == StyleFor(count, k, neg) && Trim(body)
  }

  ghost predicate PrintsFinite(body: seq<char>, w: Fp, neg: bool) {
    && ReadText(body).exponent >= -400 && w.exp >= -1074
    && (forall z :: Ample(z) ==> Nearest(z, w.frac, w.exp, ReadText(body).number, ReadText(body).exponent))
    && exists n, k, count :: Shows(body, w, neg, n, k, count)
  }

  lemma SameDecimal(z: Scale, f: nat, e: int, n: int, k: nat)
    requires Between(z, f, e, n, k)
    ensures Between(z, f, e, n * Pow10(k), 0)
  {
    TenToShift(z, k, 0);
    Regroup(n, Pow10(k), TenTo(z, 0));
  }

  lemma {:induction false} NumberBelow(ds: seq<char>)
    requires AllDigits(ds)
    ensures Number(ds) < Pow10(|ds|)
  {
    if ds != [] {
      NumberBelow(ds[..|ds| - 1]);
      assert Digit(ds[|ds| - 1]);
    }
  }

  lemma NearestText(text: seq<char>, f: nat, e: int, n: int, k: int, count: nat, neg: bool)
    requires IsDouble(f, e) && f > 0 && k >= -400
    requires forall z :: Ample(z) ==> Between(z, f, e, n, k)
    requires Shows(text, Fp(f, e), neg, n, k, count)
    ensures PrintsFinite(text, Fp(f, e), neg)
  {
    var r := ReadText(text);
    forall z | Ample(z)
      ensures Nearest(z, f, e, r.number, r.exponent)
    {
      assert Between(z, f, e, n, k);
      if r != Reading(n, k) {
        SameDecimal(z, f, e, n, k);
      }
      BetweenIsNearest(z, f, e, r.number, r.exponent);
    }
  }

  /** The text of zero, an infinity or a NaN; nothing for other values. */
  method FilterSpecial(biased: nat, fraction: nat, dest: array<char>, at: nat)
    returns (end: nat, ghost text: seq<char>)
    requires at + 3 <= dest.Length && biased <= 2047 && fraction < TWO_52
    modifies dest
    ensures at <= end <= at + 3 && Holds(dest, end, old(dest[..at]), text)
    ensures end == at <==> (biased != 2047 && !(biased == 0 && fraction == 0))
    ensures forall neg :: end != at ==> Prints(text, biased, fraction, neg)
  {
    if biased == 0 && fraction == 0 {
      dest[at] := '0';
      text := ['0'];
      return at + 1, text;
    }
    if biased != 2047 {
      return at, [];
    }
    if fraction != 0 {
      dest[at], dest[at + 1], dest[at + 2] := 'n', 'a', 'n';
      text := ['n', 'a', 'n'];
    } else {
      dest[at], dest[at + 1], dest[at + 2] := 'i', 'n', 'f';
      text := ['i', 'n', 'f'];
    }
    return at + 3, text;
  }

  method DtoaFinite(w: Fp, dest: array<char>, at: nat, negative: bool) returns (end: nat, ghost text: seq<char>)
    requires IsDouble(w.frac, w.exp) && w.frac > 0 && dest.Length >= 24 && at == if negative then 1 else 0
    modifies dest
    ensures end <= 24 && Holds(dest, end, old(dest[..at]), text) && PrintsFinite(text, w, negative)
  {
    var digits := new char[18];
    var n, k := Grisu2(w.frac, w.exp, digits);
    end, text := EmitDigits(digits, n, dest, at, k, negative);
    NumberBound(digits[..n]);
    NumberBelow(digits[..n]);
    NearestText(text, w.frac, w.exp, Number(digits[..n]), k, n, negative);
  }

  /** A double, given by its sign, biased exponent and fraction bits, as at most 24 characters. */
  method Dtoa(negative: bool, biased: nat, fraction: nat, dest: array<char>) returns (len: nat, ghost body: seq<char>)
    requires biased <= 2047 && fraction < TWO_52 && dest.Length >= 24
    modifies dest
    ensures len <= 24 && dest[..len] == (if negative then ['-'] else []) + body
    ensures Prints(body, biased, fraction, negative)
  {
    var at := 0;
    if negative {
      dest[0] := '-';
      at := 1;
    }
    assert dest[..at] == if negative then ['-'] else [];
    len, body := FilterSpecial(biased, fraction, dest, at);
    if len == at {
      len, body := DtoaFinite(BuildFp(fraction, biased), dest, at, negative);
    }
  }
}
