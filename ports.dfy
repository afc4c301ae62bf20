/*
 * Port names (EspLink.SerialPort.cs): the COM-number parse, the order
 * GetComPorts sorts its list into, and the lookup FindComPort does in that
 * list.  The list itself comes from WMI and is an input here.
 */
module Ports {
  import opened Results

  /** One entry of GetComPorts: name, device id, long name, VID, PID (either may be missing) and description. */
  datatype PortInfo = PortInfo(name: string, id: string, longName: string, vid: Option<string>, pid: Option<string>, description: string)

  // Case-insensitive comparison, as StringComparison.OrdinalIgnoreCase does it on ASCII text.

  function Upper(c: char): (u: char)
    ensures 'a' <= c <= 'z' ==> u as int == c as int - 32
    ensures !('a' <= c <= 'z') ==> u == c
  {
    if 'a' <= c <= 'z' then (c as int - 32) as char else c
  }

  predicate SameIgnoringCase(a: string, b: string)
  {
    |a| == |b| && forall i :: 0 <= i < |a| ==> Upper(a[i]) == Upper(b[i])
  }

  // int.TryParse with NumberStyles.Number, on the forms a port number takes.

  predicate IsSpace(c: char)
  {
    c == ' ' || '\t' <= c <= '\r'
  }

  predicate IsDigit(c: char)
  {
    '0' <= c <= '9'
  }

  /** The string without its leading and trailing white space. */
  function Trim(s: string): (t: string)
    ensures |t| <= |s|
    ensures t != [] ==> !IsSpace(t[0]) && !IsSpace(t[|t| - 1])
    ensures (forall i :: 0 <= i < |s| ==> !IsSpace(s[i])) ==> t == s
  {
    if s == [] then []
    else if IsSpace(s[0]) then Trim(s[1..])
    else if IsSpace(s[|s| - 1]) then Trim(s[..|s| - 1])
    else s
  }

  /** The value of a run of decimal digits, most significant first. */
  function DigitsValue(s: string): nat
    requires forall i :: 0 <= i < |s| ==> IsDigit(s[i])
  {
    if s == [] then 0
    else
      assert IsDigit(s[|s| - 1]);
      10 * DigitsValue(s[..|s| - 1]) + (s[|s| - 1] as int - '0' as int)
  }

  /** The index of the first '.' in s, or |s| when there is none. */
  function DotAt(s: string): (k: nat)
    ensures k <= |s|
    ensures k < |s| ==> s[k] == '.'
    ensures forall i :: 0 <= i < k ==> s[i] != '.'
  {
    if s == [] then 0
    else if s[0] == '.' then 0
    else 1 + DotAt(s[1..])
  }

  /** s without its ',' group separators. */
  function Ungrouped(s: string): (d: string)
    ensures |d| <= |s|
    ensures (forall i :: 0 <= i < |s| ==> IsDigit(s[i]) || s[i] == ',') ==> forall i :: 0 <= i < |d| ==> IsDigit(d[i])
    ensures (forall i :: 0 <= i < |s| ==> s[i] != ',') ==> d == s
  {
    if s == [] then []
    else if s[0] == ',' then Ungrouped(s[1..])
    else [s[0]] + Ungrouped(s[1..])
  }

  predicate AllDigits(s: string)
  {
    forall i :: 0 <= i < |s| ==> IsDigit(s[i])
  }

  predicate AllZeros(s: string)
  {
    forall i :: 0 <= i < |s| ==> s[i] == '0'
  }

  /**
   * The integer part NumberStyles.Number admits: empty, or a digit followed
   * by digits and ',' group separators.
   */
  predicate IntegerPart(s: string)
  {
    s == [] || (IsDigit(s[0]) && forall i :: 0 <= i < |s| ==> IsDigit(s[i]) || s[i] == ',')
  }

  /**
   * An unsigned number of NumberStyles.Number read as an int: an integer part,
   * then optionally '.' and fraction digits, with at least one digit in all;
   * a fraction that is not all zeros does not fit an int.
   */
  function ParseUnsigned(t: string): (r: Option<nat>)
    ensures r.Some? && (forall i :: 0 <= i < |t| ==> t[i] != '.' && t[i] != ',') ==>
      t != [] && (forall i :: 0 <= i < |t| ==> IsDigit(t[i])) && r.value == DigitsValue(t)
  {
    var k := DotAt(t);
    var whole := t[..k];
    var fraction := if k < |t| then t[k + 1..] else [];
    if !IntegerPart(whole) || !AllDigits(fraction) then None
    else if whole == [] && fraction == [] then None
    else if !AllZeros(fraction) then None
    else
      assert k == |t| ==> whole == t;
      Some(DigitsValue(Ungrouped(whole)))
  }

  /** n with the sign given, if the result fits a 32-bit int. */
  function Signed(negative: bool, n: Option<nat>): (r: Option<int>)
    ensures r.Some? <==> n.Some? && (if negative then n.value <= 0x8000_0000 else n.value < 0x8000_0000)
    ensures r.Some? ==> r.value == if negative then -(n.value as int) else n.value
  {
    match n
    case None => None
    case Some(m) =>
      var v := if negative then -(m as int) else m;
      if -0x8000_0000 <= v < 0x8000_0000 then Some(v) else None
  }

  /**
   * int.TryParse with NumberStyles.Number and the invariant culture: white
   * space around; one sign, either leading (and then no white space after it)
   * or trailing (white space allowed before it); an integer part with ','
   * group separators after its first digit; an optional '.' with a fraction
   * of zeros; and a value that fits a 32-bit int.
   */
  function ParseInt(s: string): (r: Option<int>)
    ensures r.Some? ==> -0x8000_0000 <= r.value < 0x8000_0000
  {
    var t := Trim(s);
    if t == [] then None
    else if t[0] == '-' || t[0] == '+' then Signed(t[0] == '-', ParseUnsigned(t[1..]))
    else if t[|t| - 1] == '-' || t[|t| - 1] == '+' then Signed(t[|t| - 1] == '-', ParseUnsigned(Trim(t[..|t| - 1])))
    else Signed(false, ParseUnsigned(t))
  }

  /** Group separators are skipped wherever they stand after the first digit: "2,5" is 25. */
  lemma ParseIntGrouped()
    ensures ParseInt("2,5") == Some(25)
  {
    var t := "2,5";
    assert Trim(t) == t;
    GroupedUnsigned();
  }

  lemma GroupedUnsigned()
    ensures ParseUnsigned("2,5") == Some(25)
  {
    var t := "2,5";
    assert DotAt(t) == 3 by {
      assert t[1..] == ",5" && ",5"[1..] == "5" && "5"[1..] == [];
    }
    assert t[..3] == t && IntegerPart(t);
    GroupedDigits();
  }

  lemma GroupedDigits()
    ensures DigitsValue(Ungrouped("2,5")) == 25
  {
    assert Ungrouped("2,5") == "25" by {
      assert "2,5"[1..] == ",5" && ",5"[1..] == "5";
    }
    assert DigitsValue("25") == 25 by {
      assert "25"[..1] == "2" && "2"[..0] == [];
    }
  }

  /** A zero fraction is read as the whole number, "3.0" as 3. */
  lemma ParseIntZeroFraction()
    ensures ParseInt("3.0") == Some(3)
  {
    var t := "3.0";
    assert Trim(t) == t;
    assert DotAt(t) == 1 by {
      assert t[1..] == ".0";
    }
    assert t[..1] == "3" && t[2..] == "0";
    assert IntegerPart("3");
    assert forall i :: 0 <= i < |"0"| ==> "0"[i] == '0';
    assert Ungrouped("3") == "3";
    assert DigitsValue("3") == 3 by {
      assert "3"[..0] == [];
    }
    var k := DotAt(t);
    assert k < |t|;
    var whole := t[..k];
    var fraction := if k < |t| then t[k + 1..] else [];
    assert whole == "3";
    assert fraction == "0";
    assert IntegerPart(whole);
    assert AllDigits(fraction) && AllZeros(fraction);
    assert ParseUnsigned(t) == Some(3);
  }

  /** A fraction that is not zero does not parse: "3.5" is no int. */
  lemma ParseIntFraction()
    ensures ParseInt("3.5") == None
  {
    var t := "3.5";
    assert Trim(t) == t;
    assert DotAt(t) == 1 by {
      assert t[1..] == ".5";
    }
    var k := DotAt(t);
    var whole := t[..k];
    var fraction := if k < |t| then t[k + 1..] else [];
    assert whole == "3" && fraction == "5";
    assert IntegerPart(whole);
    assert AllDigits(fraction) && !AllZeros(fraction) by {
      assert fraction[0] != '0';
    }
    assert ParseUnsigned(t) == None;
  }

  /** A trailing sign counts, white space before it allowed: " 3 -" is -3. */
  lemma ParseIntTrailingSign()
    ensures ParseInt(" 3 -") == Some(-3)
  {
    assert Trim(" 3 -") == "3 -" by {
      assert " 3 -"[1..] == "3 -";
    }
    assert "3 -"[..2] == "3 ";
    assert Trim("3 ") == "3" by {
      assert "3 "[..1] == "3";
    }
    assert DotAt("3") == 1 by {
      assert "3"[1..] == [];
    }
    assert "3"[..1] == "3";
    assert Ungrouped("3") == "3";
    assert DigitsValue("3") == 3 by {
      assert "3"[..0] == [];
    }
    assert ParseUnsigned("3") == Some(3);
  }

  /** A separator before any digit, white space after a leading sign, and two signs do not parse. */
  lemma ParseIntRejects()
    ensures ParseInt(",3") == None
    ensures ParseInt("- 3") == None
    ensures ParseInt("-3-") == None
  {
    assert Trim(",3") == ",3" && DotAt(",3") == 2 && ",3"[..2] == ",3";
    assert Trim("- 3") == "- 3" && "- 3"[1..] == " 3" && DotAt(" 3") == 2 && " 3"[..2] == " 3";
    assert Trim("-3-") == "-3-" && "-3-"[1..] == "3-" && DotAt("3-") == 2 && "3-"[..2] == "3-";
  }

  /** GetComPortNum: n for a name "COM" + n, the prefix in any case; 0 for any other name. */
  function ComPortNum(name: string): (n: int)
    ensures |name| < 3 || !SameIgnoringCase(name[..3], "COM") ==> n == 0
  {
    if |name| >= 3 && SameIgnoringCase(name[..3], "COM") then
      match ParseInt(name[3..])
      case Some(v) => v
      case None => 0
    else 0
  }

  /** The decimal digits of n, most significant first. */
  function Decimal(n: nat): (s: string)
    ensures s != [] && forall i :: 0 <= i < |s| ==> IsDigit(s[i])
  {
    if n < 10 then [('0' as int + n) as char] else Decimal(n / 10) + [('0' as int + n % 10) as char]
  }

  lemma {:induction false} DigitsOfDecimal(n: nat)
    ensures DigitsValue(Decimal(n)) == n
  {
    var s := Decimal(n);
    if n >= 10 {
      DigitsOfDecimal(n / 10);
      assert s[..|s| - 1] == Decimal(n / 10);
    }
  }

  /** "COM" + the decimal digits of n gives n back, whatever the prefix's case. */
  lemma ComPortNumOfName(prefix: string, n: nat)
    requires SameIgnoringCase(prefix, "COM") && n < 0x8000_0000
    ensures ComPortNum(prefix + Decimal(n)) == n
  {
    var name := prefix + Decimal(n);
    assert name[..3] == prefix && name[3..] == Decimal(n);
    DigitsOfDecimal(n);
    var t := Decimal(n);
    assert Trim(t) == t;
    assert t[0] != '-' && t[0] != '+' && t[|t| - 1] != '-' && t[|t| - 1] != '+';
    assert DotAt(t) == |t| && t[..|t|] == t;
  }

  /** A name that does not parse after its prefix counts as port 0. */
  lemma ComPortNumOfJunk(name: string)
    requires |name| >= 3 && ParseInt(name[3..]).None?
    ensures ComPortNum(name) == 0
  {
  }

  // The sort order of GetComPorts.

  /** String.Compare(x, y, StringComparison.Ordinal), as its sign: char codes in turn, then the shorter first. */
  function OrdinalCompare(x: string, y: string): (c: int)
    ensures -1 <= c <= 1
  {
    if x == [] && y == [] then 0
    else if x == [] then -1
    else if y == [] then 1
    else if x[0] < y[0] then -1
    else if x[0] > y[0] then 1
    else OrdinalCompare(x[1..], y[1..])
  }

  /** The comparison GetComPorts sorts with: the port number, then the name's ordinal order. */
  function ComparePorts(x: string, y: string): (c: int)
    ensures -1 <= c <= 1
    ensures ComPortNum(x) < ComPortNum(y) ==> c == -1
    ensures ComPortNum(x) > ComPortNum(y) ==> c == 1
  {
    var xn, yn := ComPortNum(x), ComPortNum(y);
    if xn < yn then -1 else if xn > yn then 1 else OrdinalCompare(x, y)
  }

  lemma {:induction false} OrdinalAntisymmetric(x: string, y: string)
    ensures OrdinalCompare(x, y) == -OrdinalCompare(y, x)
    ensures OrdinalCompare(x, y) == 0 <==> x == y
  {
    if x != [] && y != [] && x[0] == y[0] {
      OrdinalAntisymmetric(x[1..], y[1..]);
      if x[1..] == y[1..] {
        assert x == [x[0]] + x[1..] && y == [y[0]] + y[1..];
      }
    }
  }

  lemma {:induction false} OrdinalTransitive(x: string, y: string, z: string)
    requires OrdinalCompare(x, y) < 0 && OrdinalCompare(y, z) < 0
    ensures OrdinalCompare(x, z) < 0
  {
    if x != [] && y != [] && z != [] && x[0] == y[0] && y[0] == z[0] {
      OrdinalTransitive(x[1..], y[1..], z[1..]);
    }
  }

  /** The port order is a total order: it flips when its arguments do, and only equal names compare equal. */
  lemma ComparePortsAntisymmetric(x: string, y: string)
    ensures ComparePorts(x, y) == -ComparePorts(y, x)
    ensures ComparePorts(x, y) == 0 <==> x == y
  {
    OrdinalAntisymmetric(x, y);
  }

  lemma ComparePortsTransitive(x: string, y: string, z: string)
    requires ComparePorts(x, y) < 0 && ComparePorts(y, z) < 0
    ensures ComparePorts(x, z) < 0
  {
    if ComPortNum(x) == ComPortNum(y) == ComPortNum(z) {
      OrdinalTransitive(x, y, z);
    }
  }

  /** A list in the order GetComPorts returns. */
  predicate SortedPorts(ports: seq<PortInfo>)
  {
    forall i, j :: 0 <= i < j < |ports| ==> ComparePorts(ports[i].name, ports[j].name) <= 0
  }

  /** In a sorted list the port numbers never go down. */
  lemma SortedByNumber(ports: seq<PortInfo>, i: nat, j: nat)
    requires SortedPorts(ports) && i < j < |ports|
    ensures ComPortNum(ports[i].name) <= ComPortNum(ports[j].name)
  {
    assert ComparePorts(ports[i].name, ports[j].name) <= 0;
  }

  // FindComPort.

  /** The first port of the list whose name equals name ignoring case. */
  function Lookup(ports: seq<PortInfo>, name: string): (r: Option<PortInfo>)
  {
    if ports == [] then None
    else if SameIgnoringCase(ports[0].name, name) then Some(ports[0])
    else Lookup(ports[1..], name)
  }

  /** Lookup finds a match exactly when there is one, and it is the first. */
  lemma {:induction false} LookupFindsFirst(ports: seq<PortInfo>, name: string)
    ensures Lookup(ports, name).None? <==> forall i :: 0 <= i < |ports| ==> !SameIgnoringCase(ports[i].name, name)
    ensures Lookup(ports, name).Some? ==> exists i :: (0 <= i < |ports| && ports[i] == Lookup(ports, name).value &&
      SameIgnoringCase(ports[i].name, name) && forall j :: 0 <= j < i ==> !SameIgnoringCase(ports[j].name, name))
  {
    if ports != [] && !SameIgnoringCase(ports[0].name, name) {
      LookupFindsFirst(ports[1..], name);
      if Lookup(ports, name).Some? {
        var i :| 0 <= i < |ports[1..]| && ports[1..][i] == Lookup(ports, name).value &&
          SameIgnoringCase(ports[1..][i].name, name) && forall j :: 0 <= j < i ==> !SameIgnoringCase(ports[1..][j].name, name);
        assert ports[i + 1] == Lookup(ports, name).value;
        assert forall j :: 0 <= j < i + 1 ==> !SameIgnoringCase(ports[j].name, name) by {
          forall j | 0 < j < i + 1 ensures !SameIgnoringCase(ports[j].name, name) {
            assert ports[j] == ports[1..][j - 1];
          }
        }
      } else {
        forall i | 0 < i < |ports| ensures !SameIgnoringCase(ports[i].name, name) {
          assert ports[i] == ports[1..][i - 1];
        }
      }
    } else if ports != [] {
      assert ports[0] == Lookup(ports, name).value;
    }
  }

  /** FindComPort(name): the lookup's port, or ArgumentException when no port has that name. */
  method FindComPort(ports: seq<PortInfo>, name: string) returns (r: Result<PortInfo>)
    ensures r == if Lookup(ports, name).Some? then Ok(Lookup(ports, name).value) else Err(ArgumentFault)
  {
    var i := 0;
    while i < |ports|
      invariant 0 <= i <= |ports|
      invariant Lookup(ports, name) == Lookup(ports[i..], name)
    {
      if SameIgnoringCase(ports[i].name, name) {
        return Ok(ports[i]);
      }
      assert ports[i..][1..] == ports[i + 1..];
      i := i + 1;
    }
    return Err(ArgumentFault);
  }

  /** The PID of a USB serial-JTAG adapter. */
  const USB_JTAG_PID: string := "PID_1001"

  /**
   * IsUsbSerialJtag: the link's port, looked up by name, reports the
   * serial-JTAG PID.  The lookup's ArgumentException propagates, and a
   * port without a PID is a NullReferenceException.
   */
  function UsbJtagOf(ports: seq<PortInfo>, portName: string): Result<bool>
  {
    match Lookup(ports, portName)
    case None => Err(ArgumentFault)
    case Some(p) => if p.pid.None? then Err(NullReference) else Ok(SameIgnoringCase(p.pid.value, USB_JTAG_PID))
  }

  method IsUsbSerialJtag(ports: seq<PortInfo>, portName: string) returns (r: Result<bool>)
    ensures r == UsbJtagOf(ports, portName)
  {
    var port := FindComPort(ports, portName);
    if port.Err? {
      return Err(port.fault);
    }
    if port.value.pid.None? {
      return Err(NullReference);
    }
    return Ok(SameIgnoringCase(port.value.pid.value, USB_JTAG_PID));
  }

  /** A port listed once under its name, with the serial-JTAG PID in any case, is a serial-JTAG port. */
  lemma UsbJtagOfListed(ports: seq<PortInfo>, k: nat, portName: string)
    requires k < |ports| && SameIgnoringCase(ports[k].name, portName)
    requires forall j :: 0 <= j < k ==> !SameIgnoringCase(ports[j].name, portName)
    requires ports[k].pid.Some? && SameIgnoringCase(ports[k].pid.value, USB_JTAG_PID)
    ensures UsbJtagOf(ports, portName) == Ok(true)
  {
    LookupFindsFirst(ports, portName);
    var i :| 0 <= i < |ports| && ports[i] == Lookup(ports, portName).value &&
      SameIgnoringCase(ports[i].name, portName) && forall j :: 0 <= j < i ==> !SameIgnoringCase(ports[j].name, portName);
    assert i == k;
  }
}
