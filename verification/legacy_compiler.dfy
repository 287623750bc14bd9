/** The older batch loop of `src/index.ts`. It shares the keyword table, the
    validators and the splitter with the compiler, and so the record
    `compileLsp` gives each declaration, but treats a batch differently:
    an unknown keyword ends the whole batch, while a declaration that fails
    a validator gets its error record and then an error-free record as
    well, and the batch goes on. */
module LegacyCompiler {

  import opened Results
  import opened Json
  import opened Compiler

  /** The same record without its error. */
  function Cleared(c: CompilationInfo): CompilationInfo {
    c.(error := None)
  }

  /** The legacy loop over the records `compileLsp` gives the declarations
      in turn: an unknown keyword pushes its record and leaves the batch; a
      validator error pushes the record and then its error-free copy; a
      passing declaration pushes its record. */
  function LegacyFrom(cs: seq<CompilationInfo>): seq<CompilationInfo> {
    if |cs| == 0 then []
    else if cs[0].error == Some(InvalidKeywordMessage) then [cs[0]]
    else if cs[0].error.Some? then [cs[0], Cleared(cs[0])] + LegacyFrom(cs[1..])
    else [cs[0]] + LegacyFrom(cs[1..])
  }

  /** `compile` of `src/index.ts` over `(declaration, keys)` pairs. Each
      declaration starts from fresh facts seeded with its own keys, as
      `compileLsp` does. */
  function LegacyCompile(decls: seq<(string, seq<string>)>): seq<CompilationInfo> {
    LegacyFrom(Compilations(decls))
  }

  /** Every record copies the text and the keys of one declaration's
      record, in the order of the declarations. */
  lemma {:induction false} LegacyRecordsCopy(cs: seq<CompilationInfo>)
    ensures forall r :: r in LegacyFrom(cs) ==> exists i :: 0 <= i < |cs| && r.lsp == cs[i].lsp && r.args == cs[i].args
  {
    if |cs| > 0 && cs[0].error != Some(InvalidKeywordMessage) {
      var rest := LegacyFrom(cs[1..]);
      LegacyRecordsCopy(cs[1..]);
      forall r | r in LegacyFrom(cs) ensures exists i :: 0 <= i < |cs| && r.lsp == cs[i].lsp && r.args == cs[i].args {
        if r in rest {
          var i :| 0 <= i < |cs[1..]| && r.lsp == cs[1..][i].lsp && r.args == cs[1..][i].args;
          assert cs[1..][i] == cs[i + 1];
        } else {
          assert r.lsp == cs[0].lsp && r.args == cs[0].args;
        }
      }
    }
  }

  /** An unknown keyword ends the batch: what follows it is never looked
      at, and its record is the last. */
  lemma {:induction false} LegacyStopsAtInvalid(pre: seq<CompilationInfo>, bad: CompilationInfo, post: seq<CompilationInfo>)
    requires forall i :: 0 <= i < |pre| ==> pre[i].error != Some(InvalidKeywordMessage)
    requires bad.error == Some(InvalidKeywordMessage)
    ensures LegacyFrom(pre + [bad] + post) == LegacyFrom(pre) + [bad]
  {
    var all := pre + [bad] + post;
    if |pre| == 0 {
      assert all[0] == bad;
    } else {
      assert all[0] == pre[0];
      assert all[1..] == pre[1..] + [bad] + post;
      LegacyStopsAtInvalid(pre[1..], bad, post);
    }
  }

  /** The error-free records of a list. */
  function OkRecords(rs: seq<CompilationInfo>): (ok: seq<CompilationInfo>)
    ensures forall r :: r in ok ==> r.error.None?
  {
    if |rs| == 0 then []
    else if rs[0].error.None? then [rs[0]] + OkRecords(rs[1..])
    else OkRecords(rs[1..])
  }

  /** The records with an error. */
  function ErrorRecords(rs: seq<CompilationInfo>): (bad: seq<CompilationInfo>)
    ensures forall r :: r in bad ==> r.error.Some?
  {
    if |rs| == 0 then []
    else if rs[0].error.Some? then [rs[0]] + ErrorRecords(rs[1..])
    else ErrorRecords(rs[1..])
  }

  lemma {:induction false} OkRecordsAppend(a: seq<CompilationInfo>, b: seq<CompilationInfo>)
    ensures OkRecords(a + b) == OkRecords(a) + OkRecords(b)
  {
    if |a| == 0 {
      assert a + b == b;
    } else {
      assert (a + b)[0] == a[0];
      assert (a + b)[1..] == a[1..] + b;
      OkRecordsAppend(a[1..], b);
    }
  }

  lemma {:induction false} ErrorRecordsAppend(a: seq<CompilationInfo>, b: seq<CompilationInfo>)
    ensures ErrorRecords(a + b) == ErrorRecords(a) + ErrorRecords(b)
  {
    if |a| == 0 {
      assert a + b == b;
    } else {
      assert (a + b)[0] == a[0];
      assert (a + b)[1..] == a[1..] + b;
      ErrorRecordsAppend(a[1..], b);
    }
  }

  /** In a batch without unknown keywords every declaration gets exactly
      one error-free record, in order, whether or not it failed a
      validator; and the error records are exactly the failing
      declarations' records, in order. */
  lemma {:induction false} LegacyRecords(cs: seq<CompilationInfo>)
    requires forall i :: 0 <= i < |cs| ==> cs[i].error != Some(InvalidKeywordMessage)
    ensures OkRecords(LegacyFrom(cs)) == seq(|cs|, i requires 0 <= i < |cs| => Cleared(cs[i]))
    ensures ErrorRecords(LegacyFrom(cs)) == ErrorRecords(cs)
  {
    if |cs| > 0 {
      var c := cs[0];
      var rest := LegacyFrom(cs[1..]);
      LegacyRecords(cs[1..]);
      var head := if c.error.Some? then [c, Cleared(c)] else [c];
      assert LegacyFrom(cs) == head + rest;
      OkRecordsAppend(head, rest);
      ErrorRecordsAppend(head, rest);
      assert cs == [c] + cs[1..];
      ErrorRecordsAppend([c], cs[1..]);
      assert OkRecords(head) == [Cleared(c)];
    }
  }

  /** When no record has an error, the two batch loops agree: both keep
      every record. */
  lemma {:induction false} LegacyAgreesWhenClean(cs: seq<CompilationInfo>)
    requires forall i :: 0 <= i < |cs| ==> cs[i].error.None?
    ensures LegacyFrom(cs) == StopAfterError(cs) == cs
  {
    if |cs| > 0 {
      LegacyAgreesWhenClean(cs[1..]);
      assert cs == [cs[0]] + cs[1..];
    }
  }

  /** Where the two loops part: a declaration that fails a validator ends
      the compiler's batch, but the legacy loop adds its error-free copy
      and carries on with the rest. */
  lemma LegacyContinuesAfterError(c: CompilationInfo, rest: seq<CompilationInfo>)
    requires c.error.Some? && c.error != Some(InvalidKeywordMessage)
    ensures StopAfterError([c] + rest) == [c]
    ensures LegacyFrom([c] + rest) == [c, Cleared(c)] + LegacyFrom(rest)
  {
    assert ([c] + rest)[0] == c;
    assert ([c] + rest)[1..] == rest;
  }
}
