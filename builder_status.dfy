/**
 * BuilderStatus: the status the builder reports failures with. A status
 * built from a code alone derives its severity from the code with a small
 * integer formula, evaluated here with Java's `int` operators.
 */
module BuilderStatus {
  import opened Wrappers
  import opened JavaStrings

  /** IStatus severities. */
  const OK: int := 0
  const INFO: int := 1
  const WARNING: int := 2
  const ERROR: int := 4
  const CANCEL: int := 8

  /** The plug-in identifier every status carries (Activator.PLUGIN_ID). */
  const PluginId: string := "org.selman.js.builder"

  /** A status: the fields of Eclipse's Status plus the resource path of IResourceStatus. */
  datatype Status = Status(
    severity: int,
    plugin: string,
    code: int,
    message: string,
    exception: Option<string>,
    path: Option<string>)

  /** Java's `%` on int: the remainder takes the sign of the dividend. */
  function JavaRemainder(a: int, b: int): (r: int)
    requires b > 0
    ensures -b < r < b
    ensures a >= 0 ==> r == a % b
  {
    if a >= 0 then a % b else -((-a) % b)
  }

  /** Java's `/` on int: the quotient is truncated toward zero. */
  function JavaQuotient(a: int, b: int): int
    requires b > 0
  {
    if a >= 0 then a / b else -((-a) / b)
  }

  function Pow2(n: nat): (r: nat)
    ensures r >= 1
  {
    if n == 0 then 1 else 2 * Pow2(n - 1)
  }

  /** Java's `1 << distance` on int: the distance is taken modulo 32 and bit 31 is the sign. */
  function ShiftOne(distance: int): (r: int)
    ensures r != 0
  {
    var s := distance % 32;
    if s == 31 then -0x8000_0000 else Pow2(s)
  }

  /** getSeverity: `code == 0 ? 0 : 1 << (code % 100 / 33)`. */
  function GetSeverity(code: int): (r: int)
    ensures r == 0 <==> code == 0
  {
    if code == 0 then 0 else ShiftOne(JavaQuotient(JavaRemainder(code, 100), 33))
  }

  /** The severity bands of a positive code, read from its last two decimal digits. */
  lemma SeverityOfPositiveCode(code: int)
    requires code > 0
    ensures var d := code % 100;
      GetSeverity(code) == if d <= 32 then INFO else if d <= 65 then WARNING else if d <= 98 then ERROR else CANCEL
  {
    var d := code % 100;
    assert JavaRemainder(code, 100) == d;
    assert Pow2(1) == 2 && Pow2(2) == 4 && Pow2(3) == 8;
  }

  /** Codes with the same last two digits get the same severity. */
  lemma SeverityDependsOnLastDigits(a: int, b: int)
    requires a > 0 && b > 0 && a % 100 == b % 100
    ensures GetSeverity(a) == GetSeverity(b)
    ensures GetSeverity(a) in {INFO, WARNING, ERROR, CANCEL}
  {
    SeverityOfPositiveCode(a);
    SeverityOfPositiveCode(b);
  }

  /**
   * A negative code: the truncated quotient is 0, -1, -2 or -3, and the
   * shift distance wraps to 0, 31, 30 or 29.
   */
  lemma SeverityOfNegativeCode(code: int)
    requires code < 0
    ensures var d := (-code) % 100;
      GetSeverity(code) == if d <= 32 then 1 else if d <= 65 then -0x8000_0000 else if d <= 98 then Pow2(30) else Pow2(29)
  {
    var d := (-code) % 100;
    assert JavaRemainder(code, 100) == -d;
    var q := JavaQuotient(-d, 33);
    assert q == -(d / 33);
    assert d <= 32 ==> q % 32 == 0;
    assert 33 <= d <= 65 ==> q % 32 == 31;
    assert 66 <= d <= 98 ==> q % 32 == 30;
    assert d == 99 ==> q % 32 == 29;
  }

  /** BuilderStatus(type, code, path, message, exception): every field as given. */
  function WithSeverity(severity: int, code: int, path: Option<string>, message: string, exception: Option<string>): (s: Status)
    ensures s.severity == severity && s.code == code && s.path == path
    ensures s.message == message && s.exception == exception && s.plugin == PluginId
  {
    Status(severity, PluginId, code, message, exception, path)
  }

  /** BuilderStatus(code, message): the severity comes from the code and the path is null. */
  function OfCode(code: int, message: string): (s: Status)
    ensures s.severity == GetSeverity(code) && s.code == code && s.path == None
    ensures s.message == message && s.exception == None
  {
    WithSeverity(GetSeverity(code), code, None, message, None)
  }

  /** BuilderStatus(code, path, message). */
  function AtPath(code: int, path: string, message: string): (s: Status)
    ensures s.severity == GetSeverity(code) && s.code == code && s.path == Some(path)
    ensures s.message == message && s.exception == None
  {
    WithSeverity(GetSeverity(code), code, Some(path), message, None)
  }

  /** BuilderStatus(code, path, message, exception). */
  function AtPathWithException(code: int, path: string, message: string, exception: string): (s: Status)
    ensures s.severity == GetSeverity(code) && s.code == code && s.path == Some(path)
    ensures s.message == message && s.exception == Some(exception)
  {
    WithSeverity(GetSeverity(code), code, Some(path), message, Some(exception))
  }

  /** getPath: the path given when the status was built. */
  function GetPath(s: Status): Option<string>
  {
    s.path
  }

  /** getPath returns the path given to the constructor; the two-argument constructor gives none. */
  lemma PathAsConstructed(code: int, path: string, message: string, exception: string)
    ensures GetPath(OfCode(code, message)) == None
    ensures GetPath(AtPath(code, path, message)) == Some(path)
    ensures GetPath(AtPathWithException(code, path, message, exception)) == Some(path)
  {
  }

  /** Passing the severity constant ERROR where a code is expected yields severity INFO. */
  lemma ErrorAsCodeIsInfo(path: string, message: string, exception: string)
    ensures AtPathWithException(ERROR, path, message, exception).severity == INFO
    ensures GetPath(AtPathWithException(ERROR, path, message, exception)) == Some(path)
  {
    assert JavaRemainder(ERROR, 100) == 4;
    assert JavaQuotient(4, 33) == 0;
    assert ShiftOne(0) == Pow2(0) == INFO;
    assert GetSeverity(ERROR) == INFO;
  }

  /** getTypeName: the name of a known severity, otherwise its decimal digits. */
  function SeverityName(severity: int): (r: string)
    ensures severity !in {OK, ERROR, INFO, WARNING} ==> ParseDecimal(r) == severity
  {
    DecimalRoundTrip(severity);
    if severity == OK then "OK"
    else if severity == ERROR then "ERROR"
    else if severity == INFO then "INFO"
    else if severity == WARNING then "WARNING"
    else DecimalString(severity)
  }

  /** getTypeName: each of the four names stands for its severity alone; any other severity reads back from its digits. */
  function TypeName(s: Status): (r: string)
    ensures r == "OK" <==> s.severity == OK
    ensures r == "ERROR" <==> s.severity == ERROR
    ensures r == "INFO" <==> s.severity == INFO
    ensures r == "WARNING" <==> s.severity == WARNING
    ensures s.severity !in {OK, ERROR, INFO, WARNING} ==> ParseDecimal(r) == s.severity
  {
    SeverityName(s.severity)
  }

  /** No severity name holds a closing bracket, so toString's "]" ends the name. */
  lemma NameHasNoBracket(severity: int)
    ensures forall k :: 0 <= k < |SeverityName(severity)| ==> SeverityName(severity)[k] != ']'
  {
  }

  /** Different severities get different names, so the name identifies the severity. */
  lemma SeverityNameInjective(a: int, b: int)
    requires SeverityName(a) == SeverityName(b)
    ensures a == b
  {
    if a !in {OK, ERROR, INFO, WARNING} && b !in {OK, ERROR, INFO, WARNING} {
      DecimalInjective(a, b);
    }
  }

  /** How StringBuffer.append shows a reference that may be null. */
  function NullableText(s: Option<string>): string
  {
    match s
    case None => "null"
    case Some(t) => t
  }

  /** toString: the five fields in brackets, comma separated, ending in a newline. */
  function ToString(s: Status): (r: string)
    ensures |r| > |TypeHead| + |TypeName(s)| && r[|r| - 1] == '\n'
    ensures r[..|TypeHead| + |TypeName(s)|] == TypeHead + TypeName(s) && r[|TypeHead| + |TypeName(s)|] == ']'
  {
    TypeHead + TypeName(s) + PathHead + NullableText(s.path) + MessageHead + s.message
      + PluginHead + s.plugin + ExceptionHead + NullableText(s.exception) + Tail
  }

  /** The pieces of toString's text around its five fields. */
  const TypeHead: string := "[type: "
  const PathHead: string := "], [path: "
  const MessageHead: string := "], [message: "
  const PluginHead: string := "], [plugin: "
  const ExceptionHead: string := "], [exception: "
  const Tail: string := "]\n"

  /** Two statuses with the same text have the same severity. */
  lemma ToStringShowsSeverity(a: Status, b: Status)
    requires ToString(a) == ToString(b)
    ensures a.severity == b.severity
  {
    var r := ToString(a);
    NameHasNoBracket(a.severity);
    NameHasNoBracket(b.severity);
    NameBeforeBracket(r, |TypeHead|, TypeName(a), TypeName(b));
    SeverityNameInjective(a.severity, b.severity);
  }

  /** Two bracket-free names, each followed by "]" at the same place in `r`, are the same name. */
  lemma NameBeforeBracket(r: string, h: nat, t: string, u: string)
    requires h + |t| < |r| && r[h..h + |t|] == t && r[h + |t|] == ']'
    requires h + |u| < |r| && r[h..h + |u|] == u && r[h + |u|] == ']'
    requires forall k :: 0 <= k < |t| ==> t[k] != ']'
    requires forall k :: 0 <= k < |u| ==> u[k] != ']'
    ensures t == u
  {
    assert forall k :: h <= k < h + |t| ==> r[k] == t[k - h];
    assert forall k :: h <= k < h + |u| ==> r[k] == u[k - h];
    assert |t| == |u|;
  }

  /** The status the builder raises when processing a resource fails, as toString shows it. */
  lemma FailureStatusText(path: string, message: string, exception: string)
    ensures ToString(AtPathWithException(ERROR, path, message, exception))
      == TypeHead + "INFO" + PathHead + path + MessageHead + message
         + PluginHead + PluginId + ExceptionHead + exception + Tail
  {
    var s := AtPathWithException(ERROR, path, message, exception);
    assert GetSeverity(ERROR) == INFO;
    assert TypeName(s) == "INFO";
  }
}
