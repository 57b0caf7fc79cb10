/**
  The DNA/RNA string tools: an alphabet check, transcription, reversal,
  complementing with the DNA or the RNA pairing table, and a dispatcher that
  applies one of them, chosen by name, to every sequence it is given.
*/
module DnaRnaTools {
  import opened Results
  import PyStr

  /** The letters a nucleic-acid sequence may use, in either case. */
  const Allowed: set<char> := {'A', 'T', 'U', 'G', 'C', 'a', 't', 'u', 'g', 'c'}

  predicate HasT(s: string) { 'T' in s || 't' in s }

  predicate HasU(s: string) { 'U' in s || 'u' in s }

  /** The scan of `is_nucleic_acid`: stops at the first letter outside the alphabet. */
  function AllAllowed(s: string): (r: bool)
    ensures r <==> forall i :: 0 <= i < |s| ==> s[i] in Allowed
  {
    if s == [] then true
    else if s[0] !in Allowed then false
    else AllAllowed(s[1..])
  }

  /**
    True for a non-empty sequence over `ATUGCatugc` that does not mix
    thymine (T/t) with uracil (U/u).
  */
  function IsNucleicAcid(s: string): (r: bool)
    ensures r <==> s != []
                   && (forall i :: 0 <= i < |s| ==> s[i] in Allowed)
                   && !(exists i, j :: 0 <= i < |s| && 0 <= j < |s| && s[i] in "Tt" && s[j] in "Uu")
  {
    if s == [] then false
    else if !AllAllowed(s) then false
    else !(HasT(s) && HasU(s))
  }

  /** `s.replace(a, b)` for single characters. */
  function ReplaceChar(s: string, a: char, b: char): (r: string)
    ensures |r| == |s|
    ensures forall i :: 0 <= i < |s| ==> r[i] == if s[i] == a then b else s[i]
  {
    seq(|s|, i requires 0 <= i < |s| => if s[i] == a then b else s[i])
  }

  /** `ReplaceChar` is `str.replace` (`PyStr.ReplaceAll`) on one-character patterns. */
  lemma {:induction false} ReplaceCharIsReplaceAll(s: string, a: char, b: char)
    ensures ReplaceChar(s, a, b) == PyStr.ReplaceAll(s, [a], [b])
  {
    if s != [] {
      ReplaceCharIsReplaceAll(s[1..], a, b);
      assert s[..1] == [s[0]];
      assert ReplaceChar(s, a, b) == [if s[0] == a then b else s[0]] + ReplaceChar(s[1..], a, b);
    }
  }

  /** DNA to RNA: every T becomes U and every t becomes u; nothing else changes. */
  function Transcribe(s: string): (r: string)
    ensures |r| == |s|
    ensures forall i :: 0 <= i < |s| ==>
              r[i] == (if s[i] == 'T' then 'U' else if s[i] == 't' then 'u' else s[i])
    ensures !HasT(r)
  {
    ReplaceChar(ReplaceChar(s, 'T', 'U'), 't', 'u')
  }

  /** Transcribing a valid nucleic acid gives a valid nucleic acid. */
  lemma TranscribeKeepsNucleicAcid(s: string)
    requires IsNucleicAcid(s)
    ensures IsNucleicAcid(Transcribe(s))
  {
    var r := Transcribe(s);
    assert forall i :: 0 <= i < |r| ==> r[i] in Allowed;
    forall i | 0 <= i < |r| ensures r[i] !in "Tt" {
      assert r[i] in r;
    }
  }

  /** `s[::-1]` */
  function Reverse(s: string): (r: string)
    ensures |r| == |s|
    ensures forall i :: 0 <= i < |s| ==> r[i] == s[|s| - 1 - i]
  {
    if s == [] then [] else Reverse(s[1..]) + [s[0]]
  }

  lemma {:induction false} ReverseInvolutive(s: string)
    ensures Reverse(Reverse(s)) == s
  {
    var r := Reverse(Reverse(s));
    assert |r| == |s|;
    forall i | 0 <= i < |s| ensures r[i] == s[i] {
      assert Reverse(s)[|s| - 1 - i] == s[i];
    }
  }

  /** Reversal keeps the letters, so the T/U test gives the same answer. */
  lemma ReverseKeepsLetters(s: string)
    ensures HasT(Reverse(s)) == HasT(s) && HasU(Reverse(s)) == HasU(s)
  {
    var r := Reverse(s);
    forall c | c in s ensures c in r {
      var i :| 0 <= i < |s| && s[i] == c;
      assert r[|s| - 1 - i] == c;
    }
    forall c | c in r ensures c in s {
      var i :| 0 <= i < |r| && r[i] == c;
      assert s[|s| - 1 - i] == c;
    }
  }

  /** The RNA pairing table is chosen iff U/u occurs and T/t does not. */
  function IsRnaPairs(s: string): (r: bool)
    ensures r <==> (forall i :: 0 <= i < |s| ==> s[i] !in "Tt") && (exists i :: 0 <= i < |s| && s[i] in "Uu")
  {
    !HasT(s) && HasU(s)
  }

  /** The DNA pairing table: A-T and G-C in both cases; other letters are absent. */
  const DnaMap: map<char, char> :=
    map['A' := 'T', 'a' := 't', 'T' := 'A', 't' := 'a',
        'G' := 'C', 'g' := 'c', 'C' := 'G', 'c' := 'g']

  /** The RNA pairing table: A-U and G-C in both cases; other letters are absent. */
  const RnaMap: map<char, char> :=
    map['A' := 'U', 'a' := 'u', 'U' := 'A', 'u' := 'a',
        'G' := 'C', 'g' := 'c', 'C' := 'G', 'c' := 'g']

  /** `table.get(c, c)` */
  function Lookup(table: map<char, char>, c: char): char {
    if c in table then table[c] else c
  }

  /** Each pairing table is its own inverse: a partner's partner is the letter itself. */
  lemma TablesAreInvolutions(c: char)
    ensures Lookup(DnaMap, Lookup(DnaMap, c)) == c
    ensures Lookup(RnaMap, Lookup(RnaMap, c)) == c
  {
  }

  function PairingTable(s: string): map<char, char> {
    if IsRnaPairs(s) then RnaMap else DnaMap
  }

  /**
    The complementary strand, letter by letter: A/T or A/U and G/C swap
    according to the table chosen for the whole sequence, other letters
    pass through unchanged.
  */
  function Complement(s: string): (r: string)
    ensures |r| == |s|
    ensures forall i :: 0 <= i < |s| ==> r[i] == Lookup(PairingTable(s), s[i])
  {
    var table := PairingTable(s);
    seq(|s|, i requires 0 <= i < |s| => Lookup(table, s[i]))
  }

  /** With the RNA table no T/t can appear; with the DNA table no U/u can appear. */
  lemma ComplementKeepsAlphabet(s: string)
    ensures IsRnaPairs(s) ==> !HasT(Complement(s))
    ensures !IsRnaPairs(s) ==> (HasU(Complement(s)) <==> HasU(s))
  {
    var r := Complement(s);
    if IsRnaPairs(s) {
      forall i | 0 <= i < |r| ensures r[i] !in "Tt" {
        assert s[i] in s;
      }
    } else {
      forall c | c in "Uu" ensures c in r <==> c in s {
        if c in r {
          var i :| 0 <= i < |r| && r[i] == c;
          assert s[i] == c;
        }
        if c in s {
          var i :| 0 <= i < |s| && s[i] == c;
          assert r[i] == c;
        }
      }
    }
  }

  /**
    Complementing twice gives the sequence back whenever the complement is
    paired with the same table as the sequence itself.
  */
  lemma ComplementInvolutive(s: string)
    requires IsRnaPairs(Complement(s)) == IsRnaPairs(s)
    ensures Complement(Complement(s)) == s
  {
    var r := Complement(Complement(s));
    forall i | 0 <= i < |s| ensures r[i] == s[i] {
      TablesAreInvolutions(s[i]);
    }
  }

  /** The counterexample to an unconditional involution: "U" pairs as RNA, its complement "A" as DNA. */
  lemma ComplementNotAlwaysInvolutive()
    ensures Complement("U") == "A" && Complement(Complement("U")) == "T"
  {
  }

  /** The reverse complement reads the complement of `s` from the right. */
  function ReverseComplement(s: string): (r: string)
    ensures |r| == |s|
    ensures forall i :: 0 <= i < |s| ==> r[i] == Lookup(PairingTable(s), s[|s| - 1 - i])
  {
    Reverse(Complement(s))
  }

  /** Reversing and complementing commute: the table choice does not depend on the order of letters. */
  lemma ReverseComplementCommutes(s: string)
    ensures ReverseComplement(s) == Complement(Reverse(s))
  {
    ReverseKeepsLetters(s);
    assert PairingTable(Reverse(s)) == PairingTable(s);
  }

  // -----------------------------------------------------------------------
  // Dispatch by name
  // -----------------------------------------------------------------------

  datatype Procedure =
    | IsNucleicAcidProc
    | TranscribeProc
    | ReverseProc
    | ComplementProc
    | ReverseComplementProc

  /** The name under which the dispatcher offers each procedure. */
  function ProcedureName(p: Procedure): string {
    match p
    case IsNucleicAcidProc => "is_nucleic_acid"
    case TranscribeProc => "transcribe"
    case ReverseProc => "reverse"
    case ComplementProc => "complement"
    case ReverseComplementProc => "reverse_complement"
  }

  /** The dispatcher's table of procedures, looked up by name. */
  function ProcedureNamed(name: string): (r: Option<Procedure>)
    ensures r.Some? ==> ProcedureName(r.value) == name
    ensures forall p :: ProcedureName(p) == name ==> r == Some(p)
  {
    if name == "is_nucleic_acid" then Some(IsNucleicAcidProc)
    else if name == "transcribe" then Some(TranscribeProc)
    else if name == "reverse" then Some(ReverseProc)
    else if name == "complement" then Some(ComplementProc)
    else if name == "reverse_complement" then Some(ReverseComplementProc)
    else None
  }

  /** A procedure's result: `is_nucleic_acid` answers a flag, the others a string. */
  datatype Value = Flag(b: bool) | Text(s: string)

  function Apply(p: Procedure, s: string): Value {
    match p
    case IsNucleicAcidProc => Flag(IsNucleicAcid(s))
    case TranscribeProc => Text(Transcribe(s))
    case ReverseProc => Text(Reverse(s))
    case ComplementProc => Text(Complement(s))
    case ReverseComplementProc => Text(ReverseComplement(s))
  }

  /** A single result for a single sequence, otherwise the list of results. */
  datatype Output = One(value: Value) | Many(values: seq<Value>)

  /** The two `ValueError`s the dispatcher raises. */
  datatype ToolError = TooFewArguments | UnknownProcedure(name: string)

  /**
    `run_dna_rna_tools(*args)`: the last argument names the procedure, the
    ones before it are the sequences it is applied to, in order.
  */
  function RunDnaRnaTools(args: seq<string>): (r: Result<Output, ToolError>)
    ensures |args| < 2 <==> r == Failure(TooFewArguments)
    ensures |args| >= 2 ==>
              (r.Failure? <==> ProcedureNamed(args[|args| - 1]) == None)
    ensures r.Failure? && |args| >= 2 ==> r.error == UnknownProcedure(args[|args| - 1])
    ensures r.Success? ==>
              |args| >= 2 && ProcedureNamed(args[|args| - 1]).Some?
              && var p := ProcedureNamed(args[|args| - 1]).value;
              (|args| == 2 ==> r.value == One(Apply(p, args[0])))
              && (|args| > 2 ==>
                    && r.value.Many? && |r.value.values| == |args| - 1
                    && forall i :: 0 <= i < |args| - 1 ==> r.value.values[i] == Apply(p, args[i]))
  {
    if |args| < 2 then Failure(TooFewArguments)
    else
      var seqs, procedure := args[..|args| - 1], args[|args| - 1];
      match ProcedureNamed(procedure)
      case None => Failure(UnknownProcedure(procedure))
      case Some(p) =>
        var results := seq(|seqs|, i requires 0 <= i < |seqs| => Apply(p, seqs[i]));
        if |results| == 1 then Success(One(results[0])) else Success(Many(results))
  }

  /** The examples of the dispatcher's documentation. */
  lemma RunDnaRnaToolsExamples()
    ensures RunDnaRnaTools(["TTUU", "is_nucleic_acid"]) == Success(One(Flag(false)))
    ensures RunDnaRnaTools(["ATG", "reverse"]) == Success(One(Text("GTA")))
    ensures RunDnaRnaTools(["ATG", "aT", "reverse"]) == Success(Many([Text("GTA"), Text("Ta")]))
  {
    assert Reverse("ATG") == "GTA";
    assert Reverse("aT") == "Ta";
    var r := RunDnaRnaTools(["ATG", "aT", "reverse"]);
    assert r.Success? && r.value.Many? && |r.value.values| == 2;
    assert r.value.values == [Text("GTA"), Text("Ta")];
    assert HasT("TTUU") && HasU("TTUU");
  }
}
