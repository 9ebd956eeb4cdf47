/**
 * The INI configuration as configparser holds it in memory: sections, each a
 * map from key to string value. Reads with a fallback, writes that create a
 * missing section first, and the conversions behind getint, getboolean and
 * the str() applied to a value before it is written.
 */
module Config {
  import opened Wrappers
  import Text

  type Config = map<string, map<string, string>>

  /** The stored value of section/key, if both exist. */
  function Get(c: Config, section: string, key: string): Option<string> {
    if section in c && key in c[section] then Some(c[section][key]) else None
  }

  /** config.get(section, key, fallback=...): the fallback covers a missing section as well as a missing key. */
  function GetOr(c: Config, section: string, key: string, fallback: string): (r: string)
    ensures Get(c, section, key) == None ==> r == fallback
    ensures Get(c, section, key).Some? ==> r == Get(c, section, key).value
  {
    if section in c && key in c[section] then c[section][key] else fallback
  }

  /**
   * `if not has_section(s): add_section(s)` followed by set(s, key, value):
   * the section exists afterwards, the key reads back as value, and every
   * other section/key pair reads as before.
   */
  function Set(c: Config, section: string, key: string, value: string): (r: Config)
    ensures r.Keys == c.Keys + {section}
    ensures Get(r, section, key) == Some(value)
    ensures forall s, k | s != section || k != key :: Get(r, s, k) == Get(c, s, k)
  {
    var old_keys := if section in c then c[section] else map[];
    c[section := old_keys[key := value]]
  }

  // ----- integers: configparser.getint is int(value); writes use str(n) -----

  predicate IsDigit(c: char) {
    '0' <= c <= '9'
  }

  predicate AllDigits(s: string) {
    forall k | 0 <= k < |s| :: IsDigit(s[k])
  }

  function DigitChar(d: nat): (c: char)
    requires d < 10
    ensures IsDigit(c)
  {
    ('0' as int + d) as char
  }

  /** The value of a run of decimal digits, most significant first. */
  function DigitsValue(s: string): nat
    requires AllDigits(s)
  {
    if s == [] then 0 else DigitsValue(s[..|s| - 1]) * 10 + (s[|s| - 1] as int - '0' as int)
  }

  /** The text int() accepts once whitespace is stripped: an optional sign, then at least one digit. */
  predicate IntLiteral(t: string) {
    || (|t| > 0 && AllDigits(t))
    || (|t| > 1 && t[0] in {'-', '+'} && AllDigits(t[1..]))
  }

  /** str(n) for n >= 0: decimal digits, no leading zero. */
  function FormatNat(n: nat): (s: string)
    ensures |s| > 0 && AllDigits(s)
    ensures s[0] == '0' <==> n == 0
  {
    if n < 10 then [DigitChar(n)] else FormatNat(n / 10) + [DigitChar(n % 10)]
  }

  /** str(n): a '-' in front of the digits of a negative number. */
  function FormatInt(n: int): (r: string)
    ensures IntLiteral(r)
    ensures r[0] == '-' <==> n < 0
  {
    if n < 0 then "-" + FormatNat(-n) else FormatNat(n)
  }

  /**
   * int(value) on ASCII text: surrounding whitespace is ignored, then an
   * optional sign and at least one digit. Anything else is the ValueError
   * Python raises, here None.
   */
  function ParseInt(s: string): (r: Option<int>)
    ensures r.Some? <==> IntLiteral(Text.Strip(s))
    ensures r.Some? && r.value < 0 ==> Text.Strip(s)[0] == '-'
    ensures r.Some? && AllDigits(Text.Strip(s)) ==> r.value == DigitsValue(Text.Strip(s))
    ensures var t := Text.Strip(s);
      |t| > 1 && t[0] in {'-', '+'} && AllDigits(t[1..]) ==>
        r == Some(if t[0] == '-' then -(DigitsValue(t[1..]) as int) else DigitsValue(t[1..]) as int)
  {
    var t := Text.Strip(s);
    if |t| > 1 && (t[0] == '-' || t[0] == '+') && AllDigits(t[1..]) then
      var v: int := DigitsValue(t[1..]);
      Some(if t[0] == '-' then -v else v)
    else if |t| > 0 && AllDigits(t) then
      Some(DigitsValue(t))
    else
      None
  }

  lemma {:induction false} DigitsOfFormat(n: nat)
    ensures DigitsValue(FormatNat(n)) == n
  {
    if n >= 10 {
      DigitsOfFormat(n / 10);
      var s := FormatNat(n);
      assert s[..|s| - 1] == FormatNat(n / 10);
    }
  }

  /** What str(n) writes, int() reads back: a saved cover width survives a reload. */
  lemma ParseFormatInt(n: int)
    ensures ParseInt(FormatInt(n)) == Some(n)
  {
    var s := FormatInt(n);
    if n < 0 {
      var digits := FormatNat(-n);
      assert s == "-" + digits && s[1..] == digits;
      assert IsDigit(s[|s| - 1]);
      Text.StripUntrimmed(s);
      DigitsOfFormat(-n);
    } else {
      assert IsDigit(s[0]) && IsDigit(s[|s| - 1]);
      Text.StripUntrimmed(s);
      DigitsOfFormat(n);
    }
  }

  // ----- booleans: configparser.getboolean; writes use str(b) -----

  /** getboolean: the value, lower-cased, must be one of configparser's eight boolean words. */
  function ParseBool(s: string): (r: Option<bool>)
    ensures r == Some(true) <==> Text.Lower(s) in {"1", "yes", "true", "on"}
    ensures r == Some(false) <==> Text.Lower(s) in {"0", "no", "false", "off"}
  {
    var l := Text.Lower(s);
    if l in {"1", "yes", "true", "on"} then Some(true)
    else if l in {"0", "no", "false", "off"} then Some(false)
    else None
  }

  /** str(b): Python's 'True' / 'False'; what it writes, getboolean reads back. */
  function FormatBool(b: bool): (r: string)
    ensures ParseBool(r) == Some(b)
  {
    if b then
      assert Text.Lower("True") == "true";
      "True"
    else
      assert Text.Lower("False") == "false";
      "False"
  }
}
