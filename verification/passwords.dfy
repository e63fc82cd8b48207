/**
 Password-list normalisation from `main.py`: `clean_password` and the line
 filtering done by `read_password_file` once the text has been decoded and
 split into lines (decoding and file access are not modelled).
 */
module Passwords {

  import opened Text

  /** U+FEFF, the Unicode byte-order mark. */
  const Bom: char := '\U{FEFF}'

  /** The UTF-8 encoding of U+FEFF decoded as Latin-1: the three characters "ï»¿". */
  const MisdecodedBom: string := "\U{EF}\U{BB}\U{BF}"

  const Nul: char := '\0'

  /** Input on which no step of `clean_password` has anything to remove. */
  predicate AlreadyClean(s: string) {
    && (s == [] || s[0] != Bom)
    && !Contains(s, MisdecodedBom)
    && Nul !in s
    && NoSurroundingSpace(s)
  }

  /** `clean_password`: drop a leading run of U+FEFF, delete every "ï»¿" (Python's
      left-to-right `replace`), delete every NUL, then `strip()`. Every step only
      removes characters, and input that none of the steps touches comes back unchanged. */
  function CleanPassword(s: string): (r: string)
    ensures NoSurroundingSpace(r)
    ensures Nul !in r
    ensures |r| <= |s|
    ensures forall c :: c in r ==> c in s
    ensures AlreadyClean(s) ==> r == s
  {
    var noBom := LStripChar(s, Bom);
    var noArtefact := DeleteAll(noBom, MisdecodedBom);
    var noNul := DeleteChar(noArtefact, Nul);
    assert forall c :: c in noArtefact ==> c in noBom;
    assert forall c :: c in noNul ==> c in noArtefact;
    assert AlreadyClean(s) ==> noNul == s;
    StripChars(noNul);
    Strip(noNul)
  }

  /** A string without the character 'ï' cannot contain the mis-decoded BOM. */
  lemma NoMisdecodedBomWithout(s: string)
    requires '\U{EF}' !in s
    ensures !Contains(s, MisdecodedBom)
  {
    forall i ensures !OccursAt(s, MisdecodedBom, i) {
      if 0 <= i && i + |MisdecodedBom| <= |s| {
        assert s[i..i + |MisdecodedBom|][0] == s[i];
      }
    }
  }

  /** `CleanPassword` on a string without whitespace or 'ï' that does not start with
      U+FEFF is NUL deletion alone. */
  lemma CleanPasswordOfPlain(s: string)
    requires s == [] || s[0] != Bom
    requires forall c :: c in s ==> !IsSpace(c) && c != '\U{EF}'
    ensures CleanPassword(s) == DeleteChar(s, Nul)
  {
    assert LStripChar(s, Bom) == s;
    NoMisdecodedBomWithout(s);
    var t := DeleteChar(s, Nul);
    assert t == [] || (t[0] in s && t[|t| - 1] in s);
  }

  /** A leading U+FEFF makes no difference: the password comes out as if it
      were not there. */
  lemma LeadingBomIgnored(s: string)
    ensures CleanPassword([Bom] + s) == CleanPassword(s)
  {
    assert ([Bom] + s)[1..] == s;
    assert LStripChar([Bom] + s, Bom) == LStripChar(s, Bom);
  }

  /** On text without 'ï' that does not start with U+FEFF, cleaning deletes the NUL
      characters, keeping every other character in order, and then strips
      whitespace. */
  lemma CleanPasswordWithoutArtefact(s: string)
    requires '\U{EF}' !in s && (s == [] || s[0] != Bom)
    ensures CleanPassword(s) == Strip(DeleteChar(s, Nul))
  {
    assert LStripChar(s, Bom) == s;
    NoMisdecodedBomWithout(s);
    CleanPasswordBySteps(s, s, s, DeleteChar(s, Nul));
  }

  /** `CleanPassword` through its three deletion steps, named one by one. */
  lemma CleanPasswordBySteps(s: string, noBom: string, noArtefact: string, noNul: string)
    requires LStripChar(s, Bom) == noBom
    requires DeleteAll(noBom, MisdecodedBom) == noArtefact
    requires DeleteChar(noArtefact, Nul) == noNul
    ensures CleanPassword(s) == Strip(noNul)
  {
  }

  /** `Strip` of a string with exactly one leading whitespace character and
      nothing to trim after it. */
  lemma StripOneLeadingSpace(s: string)
    requires |s| >= 2 && IsSpace(s[0])
    requires !IsSpace(s[1]) && !IsSpace(s[|s| - 1])
    ensures Strip(s) == s[1..]
  {
    assert LeadingSpace(s[1..]) == 0;
    assert LeadingSpace(s) == 1;
    assert TrailingSpace(s[1..]) == 0;
  }

  /** Once `lstrip` has run, text without 'ï', NUL or surrounding whitespace is
      left as it is by the remaining steps. */
  lemma CleanAfterLStrip(s: string, rest: string)
    requires LStripChar(s, Bom) == rest
    requires '\U{EF}' !in rest && Nul !in rest && NoSurroundingSpace(rest)
    ensures CleanPassword(s) == rest
  {
    NoMisdecodedBomWithout(rest);
    CleanPasswordBySteps(s, rest, rest, rest);
  }

  /** The deletion step on "ïï»¿»¿" removes the inner "ï»¿" and joins its neighbours. */
  lemma ArtefactRejoins(s: string)
    requires s == "\U{EF}\U{EF}\U{BB}\U{BF}\U{BB}\U{BF}"
    ensures DeleteAll(s, MisdecodedBom) == MisdecodedBom
  {
    assert DeleteAll(s[4..], MisdecodedBom) == s[4..];
    assert DeleteAll(s[1..], MisdecodedBom) == s[4..];
  }

  /** The artefact itself passes the last two steps unchanged. */
  lemma ArtefactSurvivesLastSteps()
    ensures DeleteChar(MisdecodedBom, Nul) == MisdecodedBom
    ensures Strip(MisdecodedBom) == MisdecodedBom
  {
    assert !IsSpace(MisdecodedBom[0]) && !IsSpace(MisdecodedBom[2]);
  }

  /** A mis-decoded BOM can survive cleaning: deleting one occurrence joins the
      characters around it into a new one, and `replace` does not rescan. */
  lemma MisdecodedBomCanSurvive()
    ensures CleanPassword("\U{EF}\U{EF}\U{BB}\U{BF}\U{BB}\U{BF}") == MisdecodedBom
  {
    var s := "\U{EF}\U{EF}\U{BB}\U{BF}\U{BB}\U{BF}";
    assert LStripChar(s, Bom) == s;
    ArtefactRejoins(s);
    ArtefactSurvivesLastSteps();
    CleanPasswordBySteps(s, s, MisdecodedBom, MisdecodedBom);
  }

  /** A character that no step of `clean_password` removes or reacts to. */
  predicate Ordinary(x: char) {
    x != Bom && x != '\U{EF}' && x != Nul && !IsSpace(x)
  }

  /** The three deletion steps on NUL, U+FEFF, `x`: only the NUL goes. */
  lemma NulBomSteps(x: char)
    requires Ordinary(x)
    ensures LStripChar([Nul, Bom, x], Bom) == [Nul, Bom, x]
    ensures DeleteAll([Nul, Bom, x], MisdecodedBom) == [Nul, Bom, x]
    ensures DeleteChar([Nul, Bom, x], Nul) == [Bom, x]
  {
    var s := [Nul, Bom, x];
    NoMisdecodedBomWithout(s);
    assert s[1..] == [Bom, x];
  }

  /** `strip()` keeps U+FEFF, `x`: U+FEFF is not whitespace. */
  lemma BomKeptByStrip(x: char)
    requires Ordinary(x)
    ensures Strip([Bom, x]) == [Bom, x]
  {
    assert NoSurroundingSpace([Bom, x]);
  }

  /** A NUL in front of a BOM hides it from `lstrip`: cleaning NUL, U+FEFF, `x`
      deletes the NUL and keeps the BOM. */
  lemma NulHidesBom(x: char)
    requires Ordinary(x)
    ensures CleanPassword([Nul, Bom, x]) == [Bom, x]
  {
    NulBomSteps(x);
    CleanPasswordBySteps([Nul, Bom, x], [Nul, Bom, x], [Nul, Bom, x], [Bom, x]);
    BomKeptByStrip(x);
  }

  /** Cleaning U+FEFF, `x` removes the leading BOM. */
  lemma LeadingBomRemoved(x: char)
    requires Ordinary(x)
    ensures CleanPassword([Bom, x]) == [x]
  {
    assert [Bom, x][1..] == [x];
    CleanAfterLStrip([Bom, x], [x]);
  }

  /** Cleaning is not idempotent: a second pass over the cleaned NUL, U+FEFF, `x`
      (for instance "\0﻿a") removes the BOM the first pass kept. */
  lemma CleanPasswordNotIdempotent(x: char)
    requires Ordinary(x)
    ensures CleanPassword([Nul, Bom, x]) == [Bom, x]
    ensures CleanPassword(CleanPassword([Nul, Bom, x])) == [x]
  {
    NulHidesBom(x);
    LeadingBomRemoved(x);
  }

  /** The three deletion steps leave whitespace, U+FEFF, `x` alone. */
  lemma SpaceBomSteps(sp: char, x: char)
    requires IsSpace(sp) && Ordinary(x)
    ensures LStripChar([sp, Bom, x], Bom) == [sp, Bom, x]
    ensures DeleteAll([sp, Bom, x], MisdecodedBom) == [sp, Bom, x]
    ensures DeleteChar([sp, Bom, x], Nul) == [sp, Bom, x]
  {
    var s := [sp, Bom, x];
    assert sp != Bom && sp != Nul && sp != '\U{EF}';
    assert '\U{EF}' !in s && Nul !in s;
    NoMisdecodedBomWithout(s);
  }

  /** A BOM behind leading whitespace is not removed either, since `strip()` runs
      last: whitespace, U+FEFF, `x` (for instance " ﻿a") cleans to U+FEFF, `x`. */
  lemma BomBehindSpaceSurvives(sp: char, x: char)
    requires IsSpace(sp) && Ordinary(x)
    ensures CleanPassword([sp, Bom, x]) == [Bom, x]
  {
    var s := [sp, Bom, x];
    SpaceBomSteps(sp, x);
    CleanPasswordBySteps(s, s, s, s);
    StripOneLeadingSpace(s);
    assert s[1..] == [Bom, x];
  }

  /** A line holding only NUL cleans to the empty password. */
  lemma NulCleansToEmpty(s: string)
    requires s == "\0"
    ensures CleanPassword(s) == ""
  {
    CleanPasswordOfPlain(s);
    assert DeleteChar(s[1..], Nul) == [];
  }

  /** A line passes the `if ln.strip()` filter of `read_password_file`: it holds a
      character that is not whitespace (by `Strip`'s contract, exactly when its
      stripped form is non-empty). */
  predicate IsKept(line: string) {
    !AllSpace(line)
  }

  /** The positions of the lines that pass the filter, in order. */
  function KeptIndices(lines: seq<string>): (ks: seq<nat>)
    ensures forall k :: 0 <= k < |ks| ==> ks[k] < |lines| && IsKept(lines[ks[k]])
    ensures forall k, l :: 0 <= k < l < |ks| ==> ks[k] < ks[l]
    ensures forall i :: 0 <= i < |lines| && IsKept(lines[i]) ==> i in ks
  {
    if lines == [] then []
    else
      var n := |lines| - 1;
      var prev := KeptIndices(lines[..n]);
      assert forall i :: 0 <= i < n ==> lines[..n][i] == lines[i];
      prev + (if IsKept(lines[n]) then [n] else [])
  }

  /** The comprehension shape shared by both reading paths: `clean` applied to
      every kept line, in order. */
  function CleanKept(lines: seq<string>, clean: string -> string): (r: seq<string>)
    ensures |r| == |KeptIndices(lines)|
    ensures forall k :: 0 <= k < |r| ==> r[k] == clean(lines[KeptIndices(lines)[k]])
  {
    if lines == [] then []
    else
      var n := |lines| - 1;
      var prev := CleanKept(lines[..n], clean);
      assert forall i :: 0 <= i < n ==> lines[..n][i] == lines[i];
      prev + (if IsKept(lines[n]) then [clean(lines[n])] else [])
  }

  /** `read_password_file` on a file: `[clean_password(ln) for ln in raw_lines if ln.strip()]`.
      One entry per non-blank line, in order, each the cleaned line. An entry can
      still be empty (a line holding only NUL). */
  function LoadFromFile(lines: seq<string>): (r: seq<string>)
    ensures |r| == |KeptIndices(lines)|
    ensures forall k :: 0 <= k < |r| ==> r[k] == CleanPassword(lines[KeptIndices(lines)[k]])
  {
    CleanKept(lines, CleanPassword)
  }

  /** `clean_password(ln.strip())`, what the standard-input path applies to each line. */
  function CleanStripped(line: string): (r: string)
    ensures NoSurroundingSpace(r) && Nul !in r
  {
    CleanPassword(Strip(line))
  }

  /** `read_password_file` on standard input: the kept lines are stripped first and
      the stripped lines are cleaned. */
  function LoadFromStdin(lines: seq<string>): (r: seq<string>)
    ensures |r| == |KeptIndices(lines)|
    ensures forall k :: 0 <= k < |r| ==> r[k] == CleanPassword(Strip(lines[KeptIndices(lines)[k]]))
  {
    CleanKept(lines, CleanStripped)
  }

  /** A single kept line yields a single entry. */
  lemma CleanKeptOne(line: string, clean: string -> string)
    requires IsKept(line)
    ensures CleanKept([line], clean) == [clean(line)]
  {
    assert [line][..0] == [];
  }

  /** The two reading paths disagree on a line whose BOM sits behind whitespace
      (for instance " ﻿a"): a file keeps the BOM, standard input drops it. */
  lemma StdinAndFileDiffer(sp: char, x: char)
    requires IsSpace(sp) && Ordinary(x)
    ensures LoadFromFile([[sp, Bom, x]]) == [[Bom, x]]
    ensures LoadFromStdin([[sp, Bom, x]]) == [[x]]
  {
    var line := [sp, Bom, x];
    assert !IsSpace(line[1]);
    CleanKeptOne(line, CleanPassword);
    CleanKeptOne(line, CleanStripped);
    BomBehindSpaceSurvives(sp, x);
    StripOneLeadingSpace(line);
    assert line[1..] == [Bom, x];
    LeadingBomRemoved(x);
  }

  /** A kept line may clean to the empty password. */
  lemma NulLineGivesEmptyEntry()
    ensures LoadFromFile(["\0"]) == [""]
  {
    assert !IsSpace("\0"[0]);
    CleanKeptOne("\0", CleanPassword);
    NulCleansToEmpty("\0");
  }

}
