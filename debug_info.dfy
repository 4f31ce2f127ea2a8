/** Debug-information helpers of the loop analysis pass: resolving an instruction's
    scope to its subprogram, cutting a path to its last component, and building the
    "file:line" key that source locations are compared by. */
module DebugInfo {
  import opened Wrappers

  /** A subprogram entry of the debug information; only its file name is consulted. */
  datatype Subprogram = Subprogram(fileName: string)

  /** The scope node a debug location points at. A lexical block has a parent scope
      (which may be missing); every other kind of scope is OtherScope. */
  datatype Scope =
    | LexicalBlock(parent: Option<Scope>)
    | SubprogramScope(subprogram: Subprogram)
    | OtherScope

  /** getSubprogramScope: follow lexical-block parents until a subprogram is reached. */
  function GetSubprogramScope(scope: Option<Scope>): Option<Subprogram>
  {
    match scope
    case None => None
    case Some(LexicalBlock(parent)) => GetSubprogramScope(parent)
    case Some(SubprogramScope(sp)) => Some(sp)
    case Some(OtherScope) => None
  }

  /** `inner` wrapped in `depth` lexical blocks. */
  function Nest(depth: nat, inner: Option<Scope>): Option<Scope>
  {
    if depth == 0 then inner else Some(LexicalBlock(Nest(depth - 1, inner)))
  }

  lemma {:induction false} SubprogramFoundThroughBlocks(depth: nat, sp: Subprogram)
    ensures GetSubprogramScope(Nest(depth, Some(SubprogramScope(sp)))) == Some(sp)
  {
    if depth > 0 {
      SubprogramFoundThroughBlocks(depth - 1, sp);
    }
  }

  lemma {:induction false} NothingFoundThroughBlocks(depth: nat, inner: Option<Scope>)
    requires inner == None || inner == Some(OtherScope)
    ensures GetSubprogramScope(Nest(depth, inner)) == None
  {
    if depth > 0 {
      NothingFoundThroughBlocks(depth - 1, inner);
    }
  }

  /** A scope resolves to `sp` exactly when it is `sp` under some number of lexical blocks. */
  lemma {:induction false} SubprogramScopeResolves(scope: Option<Scope>, sp: Subprogram)
    ensures GetSubprogramScope(scope) == Some(sp)
            <==> exists depth: nat :: scope == Nest(depth, Some(SubprogramScope(sp)))
  {
    if GetSubprogramScope(scope) == Some(sp) {
      match scope
      case Some(LexicalBlock(parent)) =>
        SubprogramScopeResolves(parent, sp);
        var depth: nat :| parent == Nest(depth, Some(SubprogramScope(sp)));
        assert scope == Nest(depth + 1, Some(SubprogramScope(sp)));
      case Some(SubprogramScope(_)) =>
        assert scope == Nest(0, Some(SubprogramScope(sp)));
    }
    if exists depth: nat :: scope == Nest(depth, Some(SubprogramScope(sp))) {
      var depth: nat :| scope == Nest(depth, Some(SubprogramScope(sp)));
      SubprogramFoundThroughBlocks(depth, sp);
    }
  }

  /** A scope resolves to nothing exactly when it is a missing scope or a scope of
      another kind under some number of lexical blocks. */
  lemma {:induction false} SubprogramScopeMissing(scope: Option<Scope>)
    ensures GetSubprogramScope(scope) == None
            <==> exists depth: nat, inner: Option<Scope> ::
                   (inner == None || inner == Some(OtherScope)) && scope == Nest(depth, inner)
  {
    if GetSubprogramScope(scope) == None {
      match scope
      case None =>
        assert scope == Nest(0, None);
      case Some(OtherScope) =>
        assert scope == Nest(0, Some(OtherScope));
      case Some(LexicalBlock(parent)) =>
        SubprogramScopeMissing(parent);
        var depth: nat, inner: Option<Scope> :|
          (inner == None || inner == Some(OtherScope)) && parent == Nest(depth, inner);
        assert scope == Nest(depth + 1, inner);
    }
    if exists depth: nat, inner: Option<Scope> ::
         (inner == None || inner == Some(OtherScope)) && scope == Nest(depth, inner) {
      var depth: nat, inner: Option<Scope> :|
        (inner == None || inner == Some(OtherScope)) && scope == Nest(depth, inner);
      NothingFoundThroughBlocks(depth, inner);
    }
  }

  /** std::string::find_last_of for a single character. */
  function FindLastOf(s: string, c: char): (r: Option<nat>)
    ensures r.Some? ==> r.value < |s|
  {
    if |s| == 0 then None
    else if s[|s| - 1] == c then Some(|s| - 1)
    else FindLastOf(s[..|s| - 1], c)
  }

  /** find_last_of finds the last occurrence of c, or reports that there is none. */
  lemma {:induction false} FindLastOfSpec(s: string, c: char)
    ensures FindLastOf(s, c).Some? ==> && FindLastOf(s, c).value < |s|
                                       && s[FindLastOf(s, c).value] == c
                                       && c !in s[FindLastOf(s, c).value + 1..]
    ensures FindLastOf(s, c).None? ==> c !in s
  {
    if |s| > 0 && s[|s| - 1] != c {
      var prefix := s[..|s| - 1];
      FindLastOfSpec(prefix, c);
      assert s == prefix + [s[|s| - 1]];
      var r := FindLastOf(prefix, c);
      if r.Some? {
        assert s[r.value + 1..] == prefix[r.value + 1..] + [s[|s| - 1]];
      }
    }
  }

  /** getFileLastName: the text after the last '/', or the whole name when it has none. */
  function FileLastName(fileName: string): string
  {
    match FindLastOf(fileName, '/')
    case Some(idx) => fileName[idx + 1..]
    case None => fileName
  }

  /** The last name is the longest suffix of the input that contains no '/': it is the whole
      input when that has no '/', and otherwise it is preceded by a '/'. */
  lemma FileLastNameSpec(fileName: string)
    ensures '/' !in FileLastName(fileName)
    ensures |FileLastName(fileName)| <= |fileName|
    ensures FileLastName(fileName) == fileName[|fileName| - |FileLastName(fileName)|..]
    ensures '/' in fileName ==> && |FileLastName(fileName)| < |fileName|
                                && fileName[|fileName| - |FileLastName(fileName)| - 1] == '/'
    ensures '/' !in fileName ==> FileLastName(fileName) == fileName
  {
    FindLastOfSpec(fileName, '/');
  }

  /** Any '/'-free suffix that is either the whole name or preceded by a '/' is the last name. */
  lemma FileLastNameUnique(fileName: string, name: string)
    requires '/' !in name
    requires |name| <= |fileName| && name == fileName[|fileName| - |name|..]
    requires name == fileName || fileName[|fileName| - |name| - 1] == '/'
    ensures name == FileLastName(fileName)
  {
    FileLastNameSpec(fileName);
    if name == fileName {
      assert '/' !in fileName;
    }
  }

  /** Cutting a path twice is cutting it once. */
  lemma FileLastNameIdempotent(fileName: string)
    ensures FileLastName(FileLastName(fileName)) == FileLastName(fileName)
  {
    FileLastNameSpec(fileName);
    FileLastNameSpec(FileLastName(fileName));
  }

  predicate IsDigits(s: string)
  {
    forall i :: 0 <= i < |s| ==> '0' <= s[i] <= '9'
  }

  function DigitChar(d: nat): (c: char)
    requires d < 10
  {
    ('0' as int + d) as char
  }

  /** std::to_string of an unsigned line number: its decimal digits, without leading zeros. */
  function NatToDecimal(n: nat): string
    decreases n
  {
    if n < 10 then [DigitChar(n)] else NatToDecimal(n / 10) + [DigitChar(n % 10)]
  }

  /** The decimal form is a non-empty string of digits that starts with '0' only for zero. */
  lemma {:induction false} NatToDecimalDigits(n: nat)
    ensures |NatToDecimal(n)| > 0 && IsDigits(NatToDecimal(n))
    ensures NatToDecimal(n)[0] == '0' <==> n == 0
    decreases n
  {
    if n >= 10 {
      NatToDecimalDigits(n / 10);
    }
  }

  /** The number a string of decimal digits denotes. */
  function DecimalValue(s: string): nat
    requires IsDigits(s)
  {
    if s == [] then 0 else DecimalValue(s[..|s| - 1]) * 10 + (s[|s| - 1] as int - '0' as int)
  }

  /** Reading the decimal form back gives the number. */
  lemma {:induction false} DecimalRoundTrip(n: nat)
    ensures IsDigits(NatToDecimal(n)) && DecimalValue(NatToDecimal(n)) == n
  {
    NatToDecimalDigits(n);
    if n >= 10 {
      var s := NatToDecimal(n);
      assert s[..|s| - 1] == NatToDecimal(n / 10);
      DecimalRoundTrip(n / 10);
    }
  }

  lemma NatToDecimalInjective(n1: nat, n2: nat)
    requires NatToDecimal(n1) == NatToDecimal(n2)
    ensures n1 == n2
  {
    DecimalRoundTrip(n1);
    DecimalRoundTrip(n2);
  }

  /** The key an instruction's location is compared by: "<last file name>:<line>". */
  function LocationKey(fileName: string, line: nat): string
  {
    FileLastName(fileName) + ":" + NatToDecimal(line)
  }

  /** A key holds no '/': the last name holds none, and neither do the digits. */
  lemma LocationKeyHasNoSlash(fileName: string, line: nat)
    ensures '/' !in LocationKey(fileName, line)
  {
    FileLastNameSpec(fileName);
    NatToDecimalDigits(line);
    var digits := NatToDecimal(line);
    assert forall i :: 0 <= i < |digits| ==> digits[i] != '/';
  }

  /** A string ends in ":" followed by digits in only one way. */
  lemma SplitAtColon(a1: string, d1: string, a2: string, d2: string)
    requires IsDigits(d1) && IsDigits(d2)
    requires a1 + ":" + d1 == a2 + ":" + d2
    ensures a1 == a2 && d1 == d2
  {
    var k := a1 + ":" + d1;
    assert k[|a1|] == ':';
    assert k[|a2|] == ':';
    assert a1 == k[..|a1|] && d1 == k[|a1| + 1..];
    assert a2 == k[..|a2|] && d2 == k[|a2| + 1..];
  }

  /** Two keys are equal exactly when the last file names and the line numbers are. */
  lemma LocationKeyEquality(file1: string, line1: nat, file2: string, line2: nat)
    ensures LocationKey(file1, line1) == LocationKey(file2, line2)
            <==> FileLastName(file1) == FileLastName(file2) && line1 == line2
  {
    if LocationKey(file1, line1) == LocationKey(file2, line2) {
      NatToDecimalDigits(line1);
      NatToDecimalDigits(line2);
      SplitAtColon(FileLastName(file1), NatToDecimal(line1), FileLastName(file2), NatToDecimal(line2));
      NatToDecimalInjective(line1, line2);
    }
  }

  /** Cutting a key to its last name leaves it unchanged: a normalised location string
      can match a key, and normalising it again changes nothing. */
  lemma LocationKeyNormalised(fileName: string, line: nat)
    ensures FileLastName(LocationKey(fileName, line)) == LocationKey(fileName, line)
  {
    LocationKeyHasNoSlash(fileName, line);
    FileLastNameSpec(LocationKey(fileName, line));
  }
}
