/**
 `validateName(name)`: the check that the download, delete, stat, site-create,
 site-deploy and app handlers apply to a name before putting it between double
 quotes on a CLI command line. Other interpolated fields (upload's remote path,
 copy and move paths, a site uid, directories, descriptions, URLs) are not
 checked by it. The checks run in a
 fixed order and the first failing one decides the message.
 */
module Names {
  import opened Wrappers
  import opened Text

  const NameRequired := "Name is required"
  const NameEmpty := "Name cannot be empty"
  const NameInvalidChars := "Name contains invalid characters"
  const NameReserved := "Name is reserved and cannot be used"

  /** `{ valid: true, name }` or `{ valid: false, error }`. */
  datatype Validation = Valid(name: string) | Invalid(error: string)

  /** The class `[<>:"|?*\x00-\x1F]`. */
  predicate IsInvalidChar(c: char) {
    c in "<>:\"|?*" || c < '\U{0020}'
  }

  predicate HasInvalidChar(s: string) {
    exists i | 0 <= i < |s| :: IsInvalidChar(s[i])
  }

  /** ASCII upper-casing, the only case folding `/i` performs on this pattern's letters and digits. */
  function UpperAscii(s: string): (r: string)
    ensures |r| == |s|
    ensures forall i | 0 <= i < |s| :: r[i] == (if 'a' <= s[i] <= 'z' then (s[i] as int - 32) as char else s[i])
  {
    seq(|s|, i requires 0 <= i < |s| => if 'a' <= s[i] <= 'z' then (s[i] as int - 32) as char else s[i])
  }

  /** `/^(con|prn|aux|nul|com[0-9]|lpt[0-9])$/i.test(t)`, alternative by alternative. */
  predicate MatchesReserved(t: string) {
    var u := UpperAscii(t);
    || u == "CON" || u == "PRN" || u == "AUX" || u == "NUL"
    || (|u| == 4 && (u[..3] == "COM" || u[..3] == "LPT") && IsDigit(u[3]))
  }

  /** The Windows device names the pattern denotes, spelled out in upper case. */
  const ReservedNames: set<string> :=
    {"CON", "PRN", "AUX", "NUL"}
    + (set d: char | '0' <= d <= '9' :: "COM" + [d])
    + (set d: char | '0' <= d <= '9' :: "LPT" + [d])

  /** The pattern matches exactly the device names, in any letter case. */
  lemma ReservedIffDeviceName(t: string)
    ensures MatchesReserved(t) <==> UpperAscii(t) in ReservedNames
  {
    var u := UpperAscii(t);
    if |u| == 4 && (u[..3] == "COM" || u[..3] == "LPT") && IsDigit(u[3]) {
      assert u == u[..3] + [u[3]];
    }
  }

  /** `validateName(name)`; `None` stands for a missing value. */
  function ValidateName(name: Option<string>): (r: Validation)
    ensures r.Valid? <==>
              name.Some? && !IsBlank(name.value) && !HasInvalidChar(Trim(name.value)) && !MatchesReserved(Trim(name.value))
    ensures r.Valid? ==> r.name == Trim(name.value) && r.name != "" && Tight(r.name)
    ensures r == Invalid(NameRequired) <==> name.None? || name.value == ""
    ensures r == Invalid(NameEmpty) <==> name.Some? && name.value != "" && IsBlank(name.value)
    ensures r == Invalid(NameInvalidChars) <==> name.Some? && !IsBlank(name.value) && HasInvalidChar(Trim(name.value))
    ensures r == Invalid(NameReserved) <==>
              name.Some? && !IsBlank(name.value) && !HasInvalidChar(Trim(name.value)) && MatchesReserved(Trim(name.value))
  {
    match name
    case None => Invalid(NameRequired)
    case Some(s) =>
      if s == "" then Invalid(NameRequired)
      else
        var trimmed := Trim(s);
        if |trimmed| == 0 then Invalid(NameEmpty)
        else if HasInvalidChar(trimmed) then Invalid(NameInvalidChars)
        else if MatchesReserved(trimmed) then Invalid(NameReserved)
        else Valid(trimmed)
  }

  /**
   A validated name holds no `"` and no control character, so between double
   quotes it cannot close its quoted stretch early or break the line. It may
   still hold characters a shell interprets inside double quotes.
   */
  lemma ValidNameIsQuotable(name: Option<string>)
    requires ValidateName(name).Valid?
    ensures '"' !in ValidateName(name).name
    ensures forall i | 0 <= i < |ValidateName(name).name| :: ValidateName(name).name[i] >= ' '
  {
    var n := ValidateName(name).name;
    assert !HasInvalidChar(n);
    QuotableChars(n);
  }

  /** Text free of the invalid class holds no quote and no control character. */
  lemma QuotableChars(n: string)
    requires !HasInvalidChar(n)
    ensures '"' !in n
    ensures forall i | 0 <= i < |n| :: n[i] >= ' '
  {
    forall i | 0 <= i < |n| ensures n[i] != '"' && n[i] >= ' ' {
      assert !IsInvalidChar(n[i]);
    }
  }

  /** Re-validating an accepted name accepts it again, unchanged. */
  lemma RevalidateValid(name: Option<string>)
    requires ValidateName(name).Valid?
    ensures ValidateName(Some(ValidateName(name).name)) == ValidateName(name)
  {
    var n := ValidateName(name).name;
    TrimTight(n);
  }

  /** A device name, in any case, is made of ASCII letters and digits only. */
  lemma ReservedNameChars(name: string)
    requires UpperAscii(name) in ReservedNames
    ensures |name| >= 3
    ensures forall i | 0 <= i < |name| :: !IsSpace(name[i]) && !IsInvalidChar(name[i])
  {
    var u := UpperAscii(name);
    assert forall i | 0 <= i < |u| :: ('A' <= u[i] <= 'Z') || IsDigit(u[i]);
    forall i | 0 <= i < |name| ensures !IsSpace(name[i]) && !IsInvalidChar(name[i]) {
      assert ('A' <= u[i] <= 'Z') || IsDigit(u[i]);
    }
  }

  /** Device names are refused in any case and with surrounding whitespace. */
  lemma DeviceNameRefused(name: string, ws: string)
    requires UpperAscii(name) in ReservedNames
    requires IsBlank(ws)
    ensures ValidateName(Some(ws + name + ws)) == Invalid(NameReserved)
  {
    ReservedNameChars(name);
    ReservedIffDeviceName(name);
    var s := ws + name + ws;
    assert s == ws + (name + ws);
    TrimStartBlankPrefix(ws, name + ws);
    assert TrimStart(name + ws) == name + ws;
    TrimEndBlankSuffix(name, ws);
    assert Trim(s) == name;
    assert !HasInvalidChar(name);
  }

  /**
   The characters a POSIX shell still interprets between double quotes
   (section 2.2.3 of the Shell Command Language, IEEE Std 1003.1-2017): `$`
   starts an expansion, a backquote starts a command substitution, a
   backslash escapes the next character, and `"` closes the quotes.
   */
  predicate LiveInDoubleQuotes(c: char) {
    c in "$`\\\""
  }

  /** Text that a shell reproduces literally between double quotes. */
  predicate InertInDoubleQuotes(s: string) {
    forall i | 0 <= i < |s| :: !LiveInDoubleQuotes(s[i])
  }

  /** The invalid class widened by the characters that stay live between double quotes. */
  predicate IsInvalidCharForShell(c: char) {
    IsInvalidChar(c) || c in "$`\\"
  }

  predicate HasInvalidCharForShell(s: string) {
    exists i | 0 <= i < |s| :: IsInvalidCharForShell(s[i])
  }

  /**
   `validateName` as its use on shell command lines needs it: the same checks
   in the same order, with the invalid class widened to `$`, backquote and
   backslash. Every name it accepts is reproduced literally by the shell, and
   it differs from `ValidateName` only by refusing those names.
   */
  function ValidateNameForShell(name: Option<string>): (r: Validation)
    ensures r.Valid? ==> InertInDoubleQuotes(r.name) && r == ValidateName(name)
    ensures r.Valid? <==> ValidateName(name).Valid? && InertInDoubleQuotes(ValidateName(name).name)
    ensures r == Invalid(NameInvalidChars) <==>
              name.Some? && !IsBlank(name.value) && HasInvalidCharForShell(Trim(name.value))
    ensures r.Invalid? && r.error != NameInvalidChars ==> r == ValidateName(name)
  {
    match name
    case None => Invalid(NameRequired)
    case Some(s) =>
      if s == "" then Invalid(NameRequired)
      else
        var trimmed := Trim(s);
        if |trimmed| == 0 then Invalid(NameEmpty)
        else if HasInvalidCharForShell(trimmed) then Invalid(NameInvalidChars)
        else if MatchesReserved(trimmed) then
          ReservedIffDeviceName(trimmed);
          ReservedNameChars(trimmed);
          Invalid(NameReserved)
        else
          ShellClassCovers(trimmed);
          Valid(trimmed)
  }

  /** Text free of the widened class is free of the original class and reproduced literally. */
  lemma ShellClassCovers(s: string)
    requires !HasInvalidCharForShell(s)
    ensures !HasInvalidChar(s) && InertInDoubleQuotes(s)
  {
    forall i | 0 <= i < |s| ensures !IsInvalidChar(s[i]) && !LiveInDoubleQuotes(s[i]) {
      assert !IsInvalidCharForShell(s[i]);
    }
  }

  /** A text holding anything but an ASCII letter or digit is no device name. */
  lemma NotReservedWith(t: string, i: nat)
    requires i < |t| && !(('a' <= t[i] <= 'z') || ('A' <= t[i] <= 'Z') || IsDigit(t[i]))
    ensures !MatchesReserved(t)
  {
    var u := UpperAscii(t);
    assert u[i] == t[i];
    ReservedIffDeviceName(t);
    if u in ReservedNames {
      DeviceNameAlnum(u);
      assert false;
    }
  }

  /** Device names are spelled with upper-case ASCII letters and digits only. */
  lemma DeviceNameAlnum(u: string)
    requires u in ReservedNames
    ensures forall k | 0 <= k < |u| :: ('A' <= u[k] <= 'Z') || IsDigit(u[k])
  {
  }

  /**
   `validateName` accepts, unchanged, every tight name free of its invalid
   class even when the name holds `$`, a backquote or a backslash, which a
   shell still interprets between double quotes; the widened class refuses
   each such name.
   */
  lemma LiveNameAccepted(n: string, i: nat)
    requires Tight(n) && !HasInvalidChar(n) && i < |n| && n[i] in "$`\\"
    ensures ValidateName(Some(n)) == Valid(n)
    ensures !InertInDoubleQuotes(n)
    ensures ValidateNameForShell(Some(n)) == Invalid(NameInvalidChars)
  {
    TrimTight(n);
    NotReservedWith(n, i);
    assert LiveInDoubleQuotes(n[i]);
    assert IsInvalidCharForShell(n[i]);
  }
}
