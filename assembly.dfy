/**
 * What the tool writes and what it would ask: the output text assembled
 * from the recognition results, and the prompt built from the default
 * instruction and the optional `--prompt` suffix.
 */
module Assembly {
  import opened Wrappers
  import opened Strings

  /** The line that opens every block of the output file. */
  const BlockHeader: string := "------------------\n"

  /** What separates consecutive blocks. */
  const Separator: string := "\n\n"

  /** The fixed instruction: extract all text, keep line breaks and paragraphs, transcribe completely and accurately. */
  const DefaultOcrPrompt: string := "この画像に含まれるすべてのテキストを抽出してください。改行や段落構造を維持し、完全かつ正確に文字起こしをしてください。"

  function Block(text: string): string
  {
    BlockHeader + text
  }

  /** The text of the output file: one block per `(filename, text)` result, joined by a blank line. */
  function AssembleOutput(results: seq<(string, string)>): (r: string)
    ensures r == [] <==> results == []
  {
    var blocks := seq(|results|, i requires 0 <= i < |results| => Block(results[i].1));
    if results == [] then Join(Separator, blocks)
    else
      assert |Block(results[0].1)| > 0;
      JoinNonEmpty(blocks);
      Join(Separator, blocks)
  }

  lemma {:induction false} JoinNonEmpty(blocks: seq<string>)
    requires blocks != [] && |blocks[0]| > 0
    ensures |Join(Separator, blocks)| > 0
  {
  }

  /** A single result gives a single block. */
  lemma AssembleOne(filename: string, text: string)
    ensures AssembleOutput([(filename, text)]) == BlockHeader + text
  {
  }

  /**
   * One more result appends a separator and exactly its block: blocks
   * appear once per result, in the order of the results.
   */
  lemma AssembleSnoc(results: seq<(string, string)>, filename: string, text: string)
    requires results != []
    ensures AssembleOutput(results + [(filename, text)]) == AssembleOutput(results) + Separator + BlockHeader + text
  {
    var rs := results + [(filename, text)];
    var blocks := seq(|results|, i requires 0 <= i < |results| => Block(results[i].1));
    assert seq(|rs|, i requires 0 <= i < |rs| => Block(rs[i].1)) == blocks + [Block(text)];
    JoinSnoc(Separator, blocks, Block(text));
  }

  /** The file-name half of each result is discarded: only the texts, in order, decide the output. */
  lemma FileNamesDiscarded(a: seq<(string, string)>, b: seq<(string, string)>)
    requires |a| == |b|
    requires forall i :: 0 <= i < |a| ==> a[i].1 == b[i].1
    ensures AssembleOutput(a) == AssembleOutput(b)
  {
    assert seq(|a|, i requires 0 <= i < |a| => Block(a[i].1)) == seq(|b|, i requires 0 <= i < |b| => Block(b[i].1));
  }

  /**
   * The prompt `run_ocr_process` prepares: the default instruction alone
   * when the suffix is absent or empty, otherwise the default, a newline
   * and the suffix.
   */
  function ComposePrompt(suffix: Option<string>): (r: string)
    ensures |DefaultOcrPrompt| <= |r| && r[..|DefaultOcrPrompt|] == DefaultOcrPrompt
    ensures r == DefaultOcrPrompt <==> suffix.None? || suffix.value == []
    ensures r != DefaultOcrPrompt ==> r[|DefaultOcrPrompt|] == '\n' && r[|DefaultOcrPrompt| + 1..] == suffix.value
  {
    if suffix.Some? && suffix.value != [] then DefaultOcrPrompt + "\n" + suffix.value else DefaultOcrPrompt
  }
}
