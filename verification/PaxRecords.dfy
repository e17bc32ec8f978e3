/** Records of the pax extended header (IEEE Std 1003.1-2001): a length that counts its own
    digits, a keyword and a value; written into a growing buffer and read back in place. */
module PaxRecords {

  const NUL: char := 0 as char

  // ---- Numbers in text ----

  predicate IsDigit(c: char) { '0' <= c <= '9' }

  predicate IsSpace(c: char) { c == ' ' || 9 as char <= c <= 13 as char }

  predicate Blank(c: char) { c == ' ' || c == '\t' }

  function Decimal(n: nat): string {
    if n < 10 then [(n + '0' as int) as char] else Decimal(n / 10) + [(n % 10 + '0' as int) as char]
  }

  /** What `sprintf` returns for such a number. */
  function Width(n: nat): nat {
    |Decimal(n)|
  }

  function Number(digits: string): nat
    requires forall c :: c in digits ==> IsDigit(c)
  {
    if digits == "" then 0
    else
      var last := digits[|digits| - 1];
      assert IsDigit(last);
      10 * Number(digits[..|digits| - 1]) + (last as int - '0' as int)
  }

  lemma {:induction false} DecimalReads(n: nat)
    ensures forall c :: c in Decimal(n) ==> IsDigit(c)
    ensures Decimal(n) != "" && Number(Decimal(n)) == n
  {
    if n >= 10 {
      DecimalReads(n / 10);
      var s := Decimal(n);
      assert s[..|s| - 1] == Decimal(n / 10);
    }
  }

  lemma {:induction false} WidthBound(n: nat)
    ensures 1 <= Width(n) <= n / 10 + 1
  {
    if n >= 10 {
      WidthBound(n / 10);
    }
  }

  lemma {:induction false} WidthGrows(m: nat, n: nat)
    requires m <= n
    ensures Width(m) <= Width(n)
  {
    if m < 10 {
      WidthBound(n);
    } else {
      WidthGrows(m / 10, n / 10);
    }
  }

  // ---- The format ----

  /** `d` digits and `r` further characters are counted by a number of `d` digits. */
  predicate CountsItself(d: nat, r: nat) {
    d == Width(d + r)
  }

  /** There can be two such numbers, as for `r == 8`. */
  ghost predicate Least(d: nat, r: nat) {
    CountsItself(d, r) && forall e: nat :: CountsItself(e, r) ==> d <= e
  }

  function Record(d: nat, keyword: string, value: string): string {
    Decimal(d + |keyword| + |value| + 3) + " " + keyword + "=" + value + "\n"
  }

  /** The record is as long as it says. */
  lemma RecordLength(d: nat, keyword: string, value: string)
    requires CountsItself(d, |keyword| + |value| + 3)
    ensures |Record(d, keyword, value)| == d + |keyword| + |value| + 3
  {
  }

  /** `addrec`: digits are tried until their number no longer changes. */
  method RecordDigits(r: nat) returns (d: nat)
    ensures Least(d, r)
  {
    var od := 0;
    d := Width(od + r);
    StepGrows(0, 0, r);
    while d != od
      invariant od <= d == Width(od + r) && od <= r + 1
      invariant forall e: nat :: CountsItself(e, r) ==> d <= e
      decreases r + 1 - od
    {
      DigitsBounded(od, r);
      StepGrows(od, d, r);
      od := d;
      d := Width(od + r);
    }
  }

  lemma DigitsBounded(od: nat, r: nat)
    requires od <= r + 1
    ensures Width(od + r) <= r + 1
  {
    WidthBound(od + r);
  }

  lemma StepGrows(od: nat, d: nat, r: nat)
    requires od <= d
    ensures Width(od + r) <= Width(d + r)
    ensures (forall e: nat :: CountsItself(e, r) ==> d <= e) ==> forall e: nat :: CountsItself(e, r) ==>
        Width(d + r) <= e
  {
    WidthGrows(od + r, d + r);
    forall e: nat | CountsItself(e, r) && d <= e ensures Width(d + r) <= e {
      WidthGrows(d + r, e + r);
    }
  }

  // ---- Writing ----

  /** The buffer is reallocated and a string is printed to its end. */
  method Appended(pdata: array<char>, pcur: nat, psize: nat, record: string) returns (data: array<char>)
    requires pcur <= pdata.Length && pcur + |record| < psize
    ensures fresh(data) && data.Length == psize
    ensures data[..pcur + |record|] == pdata[..pcur] + record && data[pcur + |record|] == NUL
  {
    data := new char[psize];
    forall i | 0 <= i < pcur {
      data[i] := pdata[i];
    }
    forall i | 0 <= i < |record| {
      data[pcur + i] := record[i];
    }
    data[pcur + |record|] := NUL;
  }

  class Writer {
    var pdata: array<char>
    var psize: nat
    var pcur: nat

    ghost predicate Valid()
      reads this
    {
      pdata.Length == psize && pcur <= psize && (pcur > 0 ==> pcur + 513 <= psize)
    }

    ghost function Written(): string
      reads this, pdata
      requires Valid()
    {
      pdata[..pcur]
    }

    constructor ()
      ensures Valid() && fresh(pdata) && Written() == ""
    {
      pdata, psize, pcur := new char[0], 0, 0;
    }

    /** `addrec`. */
    method AddRec(keyword: string, value: string) returns (d: nat)
      requires Valid()
      modifies this
      ensures Valid() && fresh(pdata)
      ensures Least(d, |keyword| + |value| + 3)
      ensures Written() == old(Written()) + Record(d, keyword, value)
      ensures pdata[pcur] == NUL
    {
      hide Record, Width;
      var r := |keyword| + |value| + 3;
      d := RecordDigits(r);
      RecordLength(d, keyword, value);
      psize := psize + d + r + 1 + 512;
      var data := Appended(pdata, pcur, psize, Record(d, keyword, value));
      pdata, pcur := data, pcur + d + r;
    }

    /** The end of `wrpax`: whole blocks leave the buffer, and it is always large enough for them. */
    method Flush() returns (out: string)
      requires Valid()
      modifies pdata
      ensures |out| % 512 == 0 && pcur <= |out| < pcur + 512
      ensures out[..pcur] == old(Written()) && forall i :: pcur <= i < |out| ==> out[i] == NUL
    {
      forall i | pcur <= i < psize {
        pdata[i] := NUL;
      }
      var blocks := (pcur + (512 - 1)) / 512;
      out := pdata[..blocks * 512];
    }
  }
}
