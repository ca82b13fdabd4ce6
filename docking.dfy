/**
 * One docking job, `run_docking`, lifted out of its I/O: the names of the
 * job's output files, the scan of its log for the best score, and the row it
 * returns. The log's text is a parameter (`None` when opening or reading the
 * log file raised), and so are the exit code and the measured runtime.
 */
module Docking {
  import opened Wrappers
  import opened Text
  import opened Numbers
  import opened ScorePattern

  const DockedSuffix: string := "_docked_out_2.pdbqt"
  const LogPrefix: string := "log_fkbp_"
  const LogSuffix: string := ".txt"

  /** The dictionary `run_docking` returns: one row of the final report. */
  datatype Row = Row(
    ligand: string,
    dockedOutput: string,
    logFile: string,
    runtimeSec: real,
    bestScore: Option<real>)

  /** The docked-pose file: the ligand path without its last six characters, then the fixed marker. */
  function DockedOutPath(ligand: string): string {
    DropLast(ligand, 6) + DockedSuffix
  }

  /** The log file: the ligand's base name between a fixed prefix and `.txt`. */
  function LogFilePath(ligand: string): string {
    LogPrefix + Basename(ligand) + LogSuffix
  }

  /** The docked-pose path is some stem and the marker, where the stem is the ligand path less its last six characters. */
  lemma DockedOutPathIs(ligand: string, stem: string)
    ensures DockedOutPath(ligand) == stem + DockedSuffix <==>
      stem <= ligand && |stem| == (if |ligand| < 6 then 0 else |ligand| - 6)
  {
    var kept := DropLast(ligand, 6);
    if DockedOutPath(ligand) == stem + DockedSuffix {
      assert |stem| == |kept|;
      assert stem == (stem + DockedSuffix)[..|stem|];
      assert kept == (kept + DockedSuffix)[..|kept|];
    }
  }

  /** For a `.pdbqt` ligand the extension is what is replaced. */
  lemma DockedOutOfPdbqt(stem: string)
    ensures DockedOutPath(stem + ".pdbqt") == stem + DockedSuffix
  {
    DockedOutPathIs(stem + ".pdbqt", stem);
  }

  /** A ligand path shorter than six characters leaves only the marker. */
  lemma DockedOutOfShortPath(ligand: string)
    requires |ligand| < 6
    ensures DockedOutPath(ligand) == DockedSuffix
  {
    DockedOutPathIs(ligand, []);
  }

  /** The log file of a path in a directory is named after the last component alone. */
  lemma LogFileOfPath(dir: string, name: string)
    requires '/' !in name
    ensures LogFilePath(dir + "/" + name) == LogPrefix + name + LogSuffix
  {
    var path := dir + "/" + name;
    assert path[|path| - |name|..] == name;
    assert path[|path| - |name| - 1] == '/';
    BasenameIsLastComponent(path, name);
  }

  /** Two jobs share a log file exactly when their ligands share a base name. */
  lemma LogFilesCollide(ligand1: string, ligand2: string)
    ensures LogFilePath(ligand1) == LogFilePath(ligand2) <==> Basename(ligand1) == Basename(ligand2)
  {
    if LogFilePath(ligand1) == LogFilePath(ligand2) {
      var n1, n2 := Basename(ligand1), Basename(ligand2);
      assert |n1| == |n2|;
      assert n1 == LogFilePath(ligand1)[|LogPrefix|..|LogPrefix| + |n1|];
      assert n2 == LogFilePath(ligand2)[|LogPrefix|..|LogPrefix| + |n2|];
    }
  }

  /** The captured token of the first line, in line order, on which the pattern is found. */
  function FirstMatch(lines: seq<string>): (m: Option<string>)
    ensures m.None? <==> forall k :: 0 <= k < |lines| ==> Search(lines[k]).None?
    ensures m.Some? ==> AllNumeralChars(m.value)
  {
    if lines == [] then None
    else if Search(lines[0]).Some? then Search(lines[0])
    else
      var m := FirstMatch(lines[1..]);
      assert forall k :: 1 <= k < |lines| ==> lines[k] == lines[1..][k - 1];
      m
  }

  /** The score the scan of these lines ends with: that of the first match, or None. */
  function ScoreOfLines(lines: seq<string>): (score: Option<real>)
    ensures (forall k :: 0 <= k < |lines| ==> Search(lines[k]).None?) ==> score.None?
  {
    match FirstMatch(lines)
    case None => None
    case Some(tok) => ParseFloat(tok)
  }

  /** The `best_score` of a job whose log reads `log`; a log that could not be read gives None. */
  function BestScore(log: Option<string>): Option<real> {
    match log
    case None => None
    case Some(text) => ScoreOfLines(SplitLines(text))
  }

  /**
   * The scan of `run_docking`: the lines of the log in order, stopping at the
   * first on which the pattern is found. A token `float` refuses raises;
   * the handler then leaves the score None and the scan has ended.
   */
  method ExtractBestScore(log: Option<string>) returns (bestScore: Option<real>)
    ensures bestScore == BestScore(log)
  {
    bestScore := None;
    if log.None? {
      return;
    }
    var lines := SplitLines(log.value);
    var i := 0;
    while i < |lines|
      invariant 0 <= i <= |lines|
      invariant bestScore == None
      invariant FirstMatch(lines) == FirstMatch(lines[i..])
    {
      var m := Search(lines[i]);
      if m.Some? {
        bestScore := ParseFloat(m.value);
        break;
      }
      assert lines[i..][1..] == lines[i + 1..];
      i := i + 1;
    }
  }

  /**
   * `run_docking` once the subprocess has run: the exit code is only
   * reported, so the row does not depend on it.
   */
  method RunDocking(ligand: string, exitCode: int, runtimeSec: real, log: Option<string>) returns (row: Row)
    ensures row.ligand == ligand
    ensures row.dockedOutput == DockedOutPath(ligand) && row.logFile == LogFilePath(ligand)
    ensures row.runtimeSec == runtimeSec
    ensures row.bestScore == BestScore(log)
  {
    var dockedOut := DockedOutPath(ligand);
    var logFile := LogFilePath(ligand);
    var bestScore := ExtractBestScore(log);
    row := Row(ligand, dockedOut, logFile, runtimeSec, bestScore);
  }

  /** The first line on which the pattern is found decides the score. */
  lemma {:induction false} FirstMatchWins(lines: seq<string>, k: nat)
    requires k < |lines| && Search(lines[k]).Some?
    requires forall j :: 0 <= j < k ==> Search(lines[j]).None?
    ensures FirstMatch(lines) == Search(lines[k])
    ensures ScoreOfLines(lines) == ParseFloat(Search(lines[k]).value)
  {
    if k > 0 {
      assert lines[1..][k - 1] == lines[k];
      assert forall j :: 0 <= j < k - 1 ==> lines[1..][j] == lines[j + 1];
      FirstMatchWins(lines[1..], k - 1);
    }
  }

  lemma {:induction false} FirstMatchOfPrefix(prefix: seq<string>, rest: seq<string>)
    requires FirstMatch(prefix).Some?
    ensures FirstMatch(prefix + rest) == FirstMatch(prefix)
  {
    var lines := prefix + rest;
    assert lines[0] == prefix[0];
    if Search(prefix[0]).None? {
      assert lines[1..] == prefix[1..] + rest;
      FirstMatchOfPrefix(prefix[1..], rest);
    }
  }

  /** Once a line has matched, whatever follows it is never looked at. */
  lemma LaterLinesIgnored(prefix: seq<string>, rest: seq<string>)
    requires FirstMatch(prefix).Some?
    ensures FirstMatch(prefix + rest) == FirstMatch(prefix)
    ensures ScoreOfLines(prefix + rest) == ScoreOfLines(prefix)
  {
    FirstMatchOfPrefix(prefix, rest);
  }

  /** A first match whose token `float` refuses leaves the score None, however good later lines are. */
  lemma MalformedFirstTokenGivesNone(lines: seq<string>, k: nat)
    requires k < |lines| && Search(lines[k]).Some?
    requires forall j :: 0 <= j < k ==> Search(lines[j]).None?
    requires ParseFloat(Search(lines[k]).value).None?
    ensures ScoreOfLines(lines) == None
  {
    FirstMatchWins(lines, k);
  }

  const RankOnePose: string := "   1   -7.20  kcal/mol"
  const RankTwoPose: string := "   2   -6.90  kcal/mol"
  const MalformedPose: string := "   1   --5  kcal/mol"

  /** Two lines joined by `\n` split back into those two lines. */
  lemma TwoLines(first: string, second: string)
    requires NoLineBreak(first) && second != [] && NoLineBreak(second)
    ensures SplitLines(first + "\n" + second) == [first, second]
  {
    SplitLinesCons(first, "\n", second);
    SplitLinesSingle(second);
  }

  lemma PosesHaveNoBreak()
    ensures RankOnePose != [] && NoLineBreak(RankOnePose)
    ensures RankTwoPose != [] && NoLineBreak(RankTwoPose)
    ensures MalformedPose != [] && NoLineBreak(MalformedPose)
  {
  }

  lemma TwoPoseLines()
    ensures SplitLines(RankOnePose + "\n" + RankTwoPose) == [RankOnePose, RankTwoPose]
  {
    PosesHaveNoBreak();
    TwoLines(RankOnePose, RankTwoPose);
  }

  /** The rank-1 pose is scored and the rank-2 pose that follows it is ignored. */
  lemma TwoPoseLog()
    ensures BestScore(Some(RankOnePose + "\n" + RankTwoPose)) == Some(-7.2)
  {
    TwoPoseLines();
    RankOneLine();
    ScoreMinusSevenPointTwo();
    FirstMatchWins([RankOnePose, RankTwoPose], 0);
  }

  lemma MalformedPoseLines()
    ensures SplitLines(MalformedPose + "\n" + RankOnePose) == [MalformedPose, RankOnePose]
  {
    PosesHaveNoBreak();
    TwoLines(MalformedPose, RankOnePose);
  }

  /** A first rank-1 line whose token `float` refuses ends the scan with no score, though a good line follows. */
  lemma MalformedPoseLog()
    ensures BestScore(Some(MalformedPose + "\n" + RankOnePose)) == None
  {
    MalformedPoseLines();
    MalformedRankOneLine();
    MisplacedSignTokens();
    MalformedFirstTokenGivesNone([MalformedPose, RankOnePose], 0);
  }
}
