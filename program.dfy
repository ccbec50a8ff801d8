/**
 * The driver of main (transpiler.cpp:2244-2315): lex and parse the whole input
 * into a list of items, then translate every item in order into one output text,
 * reporting the index of each item whose translation failed.
 */
module Driver {

  import opened Tokens
  import opened LexerSpec
  import opened ArenaSpec
  import opened Ast
  import opened ParserSpec
  import opened Translator
  import opened TranslatorLemmas
  import opened ParserLemmas
  import opened ParserImpl

  /** Size of the lexer's String buffer that main allocates (transpiler.cpp:2266). */
  const ScratchSize: nat := 0x10000

  /** Size of the string arena that main allocates (transpiler.cpp:2269). */
  const StorageSize: nat := 0x10_0000

  /** What the translation loop writes to result.c for `units`, in order. */
  function Output(units: seq<Unit>): (r: seq<Byte>)
    ensures forall k :: 0 <= k <= |units| ==> Output(units[..k]) <= r
  {
    if units == [] then []
    else
      var n := |units| - 1;
      assert units[..|units|] == units;
      assert forall k :: 0 <= k <= n ==> units[..n][..k] == units[..k];
      Output(units[..n]) + Translate(units[n]).text
  }

  /** The indices the translation loop reports as failed, in increasing order. */
  function Failures(units: seq<Unit>): (r: seq<nat>)
    ensures forall k :: 0 <= k < |r| ==> r[k] < |units|
  {
    if units == [] then []
    else
      var n := |units| - 1;
      Failures(units[..n]) + (if Translate(units[n]).ok then [] else [n])
  }

  /**
   * The second loop of main (transpiler.cpp:2295-2302): every item is translated
   * into the same file, and a failure is reported but does not stop the loop.
   */
  method TranslateAll(units: seq<Unit>) returns (text: seq<Byte>, failed: seq<nat>)
    ensures text == Output(units) && failed == Failures(units)
  {
    text, failed := [], [];
    var i := 0;
    while i < |units|
      invariant 0 <= i <= |units|
      invariant text == Output(units[..i]) && failed == Failures(units[..i])
    {
      assert units[..i + 1][..i] == units[..i];
      var r := Translate(units[i]);
      text := text + r.text;
      if !r.ok {
        failed := failed + [i];
      }
      i := i + 1;
    }
    assert units[..|units|] == units;
  }

  /**
   * The failures reported are exactly the items Parse returned with a NULL pointer,
   * when every item is one Parse could return.
   */
  lemma {:induction false} FailuresAreNullItems(units: seq<Unit>)
    requires AllUnitsWellFormed(units)
    ensures forall k :: k in Failures(units) <==> 0 <= k < |units| && IsNull(units[k])
  {
    if units != [] {
      var n := |units| - 1;
      assert AllUnitsWellFormed(units[..n]) by {
        forall i | 0 <= i < n
          ensures UnitWellFormed(units[..n][i])
        {
          assert units[..n][i] == units[i];
        }
      }
      FailuresAreNullItems(units[..n]);
      WellFormedUnitTranslates(units[n]);
      forall k | 0 <= k < n
        ensures IsNull(units[..n][k]) == IsNull(units[k])
      {
        assert units[..n][k] == units[k];
      }
    }
  }

  /**
   * main: read the items of `input` with a lexer and a string arena of main's sizes,
   * then translate them. The items are those of the parsing loop, and the failures
   * reported are exactly the NULL items among them.
   */
  method Transpile(input: seq<Byte>) returns (units: seq<Unit>, text: seq<Byte>, failed: seq<nat>)
    ensures units == ParseAll(PState(InitLexer(input, ScratchSize), InitStorage(StorageSize)), false, [])
    ensures text == Output(units) && failed == Failures(units)
    ensures forall k :: k in failed <==> 0 <= k < |units| && IsNull(units[k])
  {
    var parser := new Parser(input, ScratchSize, StorageSize);
    ghost var start := parser.State();
    units := parser.ParseProgram();
    ParseAllWellFormed(start, false, []);
    FailuresAreNullItems(units);
    text, failed := TranslateAll(units);
  }
}
