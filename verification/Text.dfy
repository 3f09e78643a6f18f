/** Wrappers and the little text handling the controllers share. */
module Text {

  datatype Option<+T> = None | Some(value: T) {
    function GetOr(default: T): T {
      if Some? then value else default
    }
  }

  predicate IsDigit(c: char) {
    '0' <= c <= '9'
  }

  predicate AllDigits(s: string) {
    forall i | 0 <= i < |s| :: IsDigit(s[i])
  }

  /** `Number` of a run of digits. */
  function Number(s: string): nat
    requires AllDigits(s)
  {
    if s == "" then 0 else 10 * Number(s[..|s| - 1]) + (s[|s| - 1] - '0') as nat
  }

  /** How a template string prints a natural number. */
  function Show(n: nat): (s: string)
    ensures s != "" && AllDigits(s) && Number(s) == n
  {
    var digit := ('0' as int + n % 10) as char;
    if n < 10 then [digit] else Show(n / 10) + [digit]
  }

  function Pad2(n: nat): string {
    if n < 10 then "0" + Show(n) else Show(n)
  }

  lemma TwoDigits(n: nat)
    requires n < 100
    ensures |Pad2(n)| == 2 && AllDigits(Pad2(n)) && Number(Pad2(n)) == n
  {
    if n < 10 {
      assert Show(n) == [('0' as int + n) as char];
      assert "0" + Show(n) == ['0', ('0' as int + n) as char];
      assert ("0" + Show(n))[..1] == "0";
    } else {
      assert |Show(n / 10)| == 1;
    }
  }

  function Power10(k: nat): nat {
    if k == 0 then 1 else 10 * Power10(k - 1)
  }

  lemma PowerAtLeast10(k: nat)
    requires k >= 1
    ensures Power10(k) >= 10
  {
  }

  lemma {:induction false} Length(n: nat, k: nat)
    requires k >= 1
    ensures |Show(n)| <= k <==> n < Power10(k)
    decreases k
  {
    if k > 1 && n >= 10 {
      Length(n / 10, k - 1);
      assert n / 10 < Power10(k - 1) <==> n < 10 * Power10(k - 1);
    }
    PowerAtLeast10(k);
  }

  predicate IsSpace(c: char) {
    c in " \t\n\r" || c == '\U{000B}' || c == '\U{000C}'
  }

  /** `trim`, on text whose only white space is ASCII. */
  function Trim(s: string): string {
    if s == "" then s
    else if IsSpace(s[0]) then Trim(s[1..])
    else if IsSpace(s[|s| - 1]) then Trim(s[..|s| - 1])
    else s
  }

  predicate Trimmed(s: string) {
    s == "" || (!IsSpace(s[0]) && !IsSpace(s[|s| - 1]))
  }
}
