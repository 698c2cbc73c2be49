/** The few PHP built-ins the TEI enhancer and its helpers rely on, written out
    on Dafny values: string positions and tails, string truthiness, integer to
    decimal text, htmlspecialchars and the insertion-ordered string-keyed array
    that `$a[$k] = $v` and array_flip work on. */
module PhpBuiltins {

  datatype Option<T> = None | Some(value: T)

  /** `(string)$x` of a node that may be missing: a missing node reads as "". */
  function StringOf(o: Option<string>): string
  {
    match o
    case Some(s) => s
    case None => ""
  }

  /** PHP's truthiness of a string: "" and "0" are false, every other string is true. */
  predicate Truthy(s: string)
  {
    s != "" && s != "0"
  }

  /** strpos($s, $c) for a one-character needle; None stands for PHP's false. */
  function StrPos(s: string, c: char): (r: Option<nat>)
    ensures r.None? <==> c !in s
    ensures r.Some? ==> r.value < |s| && s[r.value] == c && c !in s[..r.value]
  {
    if s == [] then None
    else if s[0] == c then Some(0)
    else
      assert s == [s[0]] + s[1..];
      match StrPos(s[1..], c)
      case None => None
      case Some(i) =>
        assert s[..i + 1] == [s[0]] + s[1..][..i];
        Some(i + 1)
  }

  /** substr($s, -$n) for n > 0: the last n characters, or all of s when it is shorter. */
  function SubstrTail(s: string, n: nat): (r: string)
    ensures |r| <= |s| && |r| <= n && (|r| < n ==> r == s)
    ensures r == s[|s| - |r|..]
  {
    if n <= |s| then s[|s| - n..] else s
  }

  predicate IsDigit(c: char)
  {
    '0' <= c <= '9'
  }

  function Digit(d: nat): char
    requires d < 10
  {
    (48 + d) as char
  }

  function DigitValue(c: char): nat
    requires IsDigit(c)
  {
    (c as int) - 48
  }

  /** The text PHP produces when a non-negative integer is concatenated to a string. */
  function DecimalString(n: nat): (r: string)
    ensures |r| > 0
    ensures forall i :: 0 <= i < |r| ==> IsDigit(r[i])
    decreases n
  {
    if n < 10 then [Digit(n)] else DecimalString(n / 10) + [Digit(n % 10)]
  }

  /** Reads a string of decimal digits back as a number. */
  function ParseDecimal(s: string): nat
    requires forall i :: 0 <= i < |s| ==> IsDigit(s[i])
  {
    if s == [] then 0 else 10 * ParseDecimal(s[..|s| - 1]) + DigitValue(s[|s| - 1])
  }

  /** Decimal text is a faithful encoding: parsing it gives the number back. */
  lemma {:induction false} ParseDecimalString(n: nat)
    ensures ParseDecimal(DecimalString(n)) == n
    decreases n
  {
    if n >= 10 {
      var r := DecimalString(n);
      assert r[..|r| - 1] == DecimalString(n / 10);
      ParseDecimalString(n / 10);
    }
  }

  /** Different numbers have different decimal texts. */
  lemma DecimalStringInjective(a: nat, b: nat)
    requires DecimalString(a) == DecimalString(b)
    ensures a == b
  {
    ParseDecimalString(a);
    ParseDecimalString(b);
  }

  /** The replacement htmlspecialchars makes for one character, with the
      default flags of PHP before 8.1 (ENT_COMPAT | ENT_HTML401). */
  function EscapeChar(c: char): string
  {
    if c == '&' then "&amp;"
    else if c == '"' then "&quot;"
    else if c == '<' then "&lt;"
    else if c == '>' then "&gt;"
    else [c]
  }

  predicate Special(c: char)
  {
    c == '&' || c == '"' || c == '<' || c == '>'
  }

  /** A text htmlspecialchars leaves as it is. */
  predicate PlainText(s: string)
  {
    forall i :: 0 <= i < |s| ==> !Special(s[i])
  }

  /** htmlspecialchars($s). */
  function HtmlSpecialChars(s: string): (r: string)
    ensures |r| >= |s|
    ensures '<' !in r && '>' !in r && '"' !in r
    ensures (forall i :: 0 <= i < |s| ==> !Special(s[i])) ==> r == s
  {
    if s == [] then []
    else
      var rest := HtmlSpecialChars(s[1..]);
      assert (forall i :: 0 <= i < |s| ==> !Special(s[i])) ==> (forall i :: 0 <= i < |s[1..]| ==> !Special(s[1..][i]));
      EscapeChar(s[0]) + rest
  }

  /** The text libxml stores when SimpleXML's addChild is given `t` as the
      element's content: the predefined entity references are decoded, every
      other character is kept. */
  function DecodeEntities(t: string): (r: string)
    ensures |r| <= |t|
    ensures '&' !in t ==> r == t
    decreases |t|
  {
    if t == [] then []
    else if t[0] != '&' then [t[0]] + DecodeEntities(t[1..])
    else if |t| >= 5 && t[..5] == "&amp;" then "&" + DecodeEntities(t[5..])
    else if |t| >= 6 && t[..6] == "&quot;" then "\"" + DecodeEntities(t[6..])
    else if |t| >= 6 && t[..6] == "&apos;" then "'" + DecodeEntities(t[6..])
    else if |t| >= 4 && t[..4] == "&lt;" then "<" + DecodeEntities(t[4..])
    else if |t| >= 4 && t[..4] == "&gt;" then ">" + DecodeEntities(t[4..])
    else [t[0]] + DecodeEntities(t[1..])
  }

  /** Decoding undoes the replacement of one character. */
  lemma DecodeEscapeChar(c: char, r: string)
    ensures DecodeEntities(EscapeChar(c) + r) == [c] + DecodeEntities(r)
  {
    var t := EscapeChar(c) + r;
    var e := EscapeChar(c);
    assert t[..|e|] == e && t[|e|..] == r;
    if !Special(c) {
      assert t[0] == c && c != '&';
      assert |t| >= 5 ==> t[..5][0] != '&';
      assert |t| >= 6 ==> t[..6][0] != '&';
      assert |t| >= 4 ==> t[..4][0] != '&';
      assert t[1..] == r;
    } else {
      assert t[0] == '&' && t[1] == e[1];
      assert |t| >= 5 && t[..5] == "&amp;" ==> t[1] == 'a';
      assert |t| >= 6 && t[..6] == "&quot;" ==> t[1] == 'q';
      assert |t| >= 6 && t[..6] == "&apos;" ==> t[1] == 'a';
      assert |t| >= 4 && t[..4] == "&lt;" ==> t[1] == 'l';
    }
  }

  /** addChild gets the original text back from its escaped form. */
  lemma {:induction false} DecodeEscaped(s: string)
    ensures DecodeEntities(HtmlSpecialChars(s)) == s
    decreases |s|
  {
    if s != [] {
      DecodeEscaped(s[1..]);
      DecodeEscapeChar(s[0], HtmlSpecialChars(s[1..]));
      assert s == [s[0]] + s[1..];
    }
  }

  /** Escaping loses nothing: different texts have different escaped texts. */
  lemma HtmlSpecialCharsInjective(a: string, b: string)
    requires HtmlSpecialChars(a) == HtmlSpecialChars(b)
    ensures a == b
  {
    DecodeEscaped(a);
    DecodeEscaped(b);
  }

  /** A text with a character htmlspecialchars replaces grows when escaped. */
  lemma {:induction false} EscapedLonger(s: string, i: nat)
    requires i < |s| && Special(s[i])
    ensures |HtmlSpecialChars(s)| > |s|
    decreases |s|
  {
    assert HtmlSpecialChars(s) == EscapeChar(s[0]) + HtmlSpecialChars(s[1..]);
    if i > 0 {
      EscapedLonger(s[1..], i - 1);
    }
  }

  /** A PHP array with string keys, in insertion order. */
  type PhpArray = seq<(string, string)>

  predicate UniqueKeys(a: PhpArray)
  {
    forall i, j :: 0 <= i < j < |a| ==> a[i].0 != a[j].0
  }

  /** The position of key k in a, if it is there. */
  function KeyIndex(a: PhpArray, k: string): (r: Option<nat>)
    ensures r.None? ==> forall i :: 0 <= i < |a| ==> a[i].0 != k
    ensures r.Some? ==> r.value < |a| && a[r.value].0 == k
  {
    if a == [] then None
    else if a[|a| - 1].0 == k then Some(|a| - 1)
    else KeyIndex(a[..|a| - 1], k)
  }

  /** `$a[$k] = $v`: overwrite the value of an existing key in place, or append the key at the end. */
  function Put(a: PhpArray, k: string, v: string): (r: PhpArray)
    requires UniqueKeys(a)
    ensures UniqueKeys(r)
    ensures (k, v) in r
    ensures forall p :: p in r ==> p == (k, v) || (p in a && p.0 != k)
    ensures forall p :: p in a && p.0 != k ==> p in r
  {
    match KeyIndex(a, k)
    case Some(i) =>
      var r := a[i := (k, v)];
      assert r[i] == (k, v);
      assert forall j :: 0 <= j < |a| && j != i ==> a[j].0 != k;
      assert forall p :: p in a && p.0 != k ==> p in r by {
        forall p | p in a && p.0 != k ensures p in r {
          var j :| 0 <= j < |a| && a[j] == p;
          assert r[j] == p;
        }
      }
      r
    case None =>
      var r := a + [(k, v)];
      assert r[|a|] == (k, v);
      r
  }

  /** Where `$a[$k] = $v` puts the pair: at the end for a new key, in the
      existing key's place otherwise, with every other pair where it was. */
  lemma PutPlaces(a: PhpArray, k: string, v: string)
    requires UniqueKeys(a)
    ensures (forall i :: 0 <= i < |a| ==> a[i].0 != k) ==> Put(a, k, v) == a + [(k, v)]
    ensures forall i :: 0 <= i < |a| && a[i].0 == k ==> Put(a, k, v) == a[i := (k, v)]
  {
    match KeyIndex(a, k)
    case Some(p) =>
      assert forall i :: 0 <= i < |a| && a[i].0 == k ==> i == p;
    case None =>
  }

  /** array_flip($a): every value becomes a key mapped to its key; for a value
      that occurs twice the later pair wins. */
  function Flip(a: PhpArray): (r: map<string, string>)
    ensures forall t :: t in r ==> (r[t], t) in a
    ensures forall p :: p in a ==> p.1 in r
    ensures forall i :: 0 <= i < |a| && (forall j :: i < j < |a| ==> a[j].1 != a[i].1) ==> r[a[i].1] == a[i].0
  {
    if a == [] then map[]
    else
      var init := a[..|a| - 1];
      assert a == init + [a[|a| - 1]];
      Flip(init)[a[|a| - 1].1 := a[|a| - 1].0]
  }
}
