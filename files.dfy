/**
 * The directory pass shared by both converter revisions: a walk over the
 * entries of a directory tree that rewrites every regular `.sh` file
 * whose converted text differs from its content, and stops at the first
 * error. The conversion itself is a parameter.
 *
 * The file system is given as the sequence of entries the walk visits,
 * in walk order, each with what reading and writing it would do.
 */
module Files {
  import opened Text
  import opened Maybe

  /**
   * One path handed to the walk callback: whether it could be accessed
   * at all, whether it is a regular file, and, for a file, whether it can
   * be read, its content, and whether it can be written.
   */
  datatype Entry = Entry(path: string, name: string, accessible: bool, regular: bool,
                         readable: bool, content: string, writable: bool)

  /** The errors the callback returns, each naming the path. */
  datatype FileError =
    | AccessFailed(path: string)
    | ReadFailed(path: string)
    | WriteFailed(path: string)

  /** The error of the whole pass: the callback's error wrapped with the root. */
  datatype DirError = ProcessingFailed(dir: string, cause: FileError)

  /** What the callback did with one entry. */
  datatype Outcome = Skipped | Unchanged | Rewritten(content: string) | Failed(error: FileError)

  /** A file written back, with its new content. */
  datatype Write = Write(path: string, content: string)

  /** The files written, in order, and the error that stopped the walk, if any. */
  datatype WalkResult = WalkResult(writes: seq<Write>, error: Option<FileError>)

  const ScriptSuffix: string := ".sh"

  /** Only regular files whose name ends in ".sh"; hidden names are not excluded. */
  predicate IsScript(e: Entry)
  {
    e.regular && EndsWith(e.name, ScriptSuffix)
  }

  /** One file: read it, convert the text, and write it back only if it changed. */
  function ProcessFile(e: Entry, convert: string -> string): Outcome
  {
    if !e.readable then Failed(ReadFailed(e.path))
    else if convert(e.content) == e.content then Unchanged
    else if !e.writable then Failed(WriteFailed(e.path))
    else Rewritten(convert(e.content))
  }

  /** The walk callback for one entry. */
  function Visit(e: Entry, convert: string -> string): Outcome
  {
    if !e.accessible then Failed(AccessFailed(e.path))
    else if IsScript(e) then ProcessFile(e, convert)
    else Skipped
  }

  /** The walk: every entry in order, stopping at the first error the callback returns. */
  function Walk(entries: seq<Entry>, convert: string -> string): WalkResult
    decreases |entries|
  {
    if |entries| == 0 then WalkResult([], None)
    else
      var rest := Walk(entries[1..], convert);
      match Visit(entries[0], convert)
      case Failed(err) => WalkResult([], Some(err))
      case Rewritten(c) => WalkResult([Write(entries[0].path, c)] + rest.writes, rest.error)
      case _ => rest
  }

  /** The walk from position `i` on, with its first entry taken. */
  lemma WalkStep(entries: seq<Entry>, convert: string -> string, i: nat)
    requires i < |entries|
    ensures Walk(entries[i..], convert) ==
              match Visit(entries[i], convert)
              case Failed(err) => WalkResult([], Some(err))
              case Rewritten(c) =>
                WalkResult([Write(entries[i].path, c)] + Walk(entries[i + 1..], convert).writes,
                           Walk(entries[i + 1..], convert).error)
              case _ => Walk(entries[i + 1..], convert)
  {
    assert entries[i..][0] == entries[i] && entries[i..][1..] == entries[i + 1..];
  }

  /** The error the whole pass returns for root `dir`. */
  function PassError(dir: string, error: Option<FileError>): Option<DirError>
  {
    match error
    case None => None
    case Some(cause) => Some(ProcessingFailed(dir, cause))
  }

  /** An entry as a second walk would find it after the first one. */
  function AfterVisit(e: Entry, convert: string -> string): Entry
  {
    match Visit(e, convert)
    case Rewritten(c) => e.(content := c)
    case _ => e
  }

  function AfterWalk(entries: seq<Entry>, convert: string -> string): seq<Entry>
    decreases |entries|
  {
    if |entries| == 0 then []
    else [AfterVisit(entries[0], convert)] + AfterWalk(entries[1..], convert)
  }

  // ---------------------------------------------------------------
  // Properties of the walk
  // ---------------------------------------------------------------

  /**
   * The walk fails exactly when some entry fails, and then with the
   * first failing entry's error, after writing what the entries before
   * it wrote: those files stay rewritten.
   */
  lemma {:induction false} WalkStopsAtFirstError(entries: seq<Entry>, convert: string -> string, k: nat)
    requires k < |entries| && Visit(entries[k], convert).Failed?
    requires forall i :: 0 <= i < k ==> !Visit(entries[i], convert).Failed?
    ensures Walk(entries[..k], convert).error == None
    ensures Walk(entries, convert) ==
              WalkResult(Walk(entries[..k], convert).writes, Some(Visit(entries[k], convert).error))
    decreases k
  {
    if k > 0 {
      assert entries[..k][1..] == entries[1..][..k - 1];
      assert entries[..k][0] == entries[0];
      WalkStopsAtFirstError(entries[1..], convert, k - 1);
    }
  }

  lemma {:induction false} WalkSucceeds(entries: seq<Entry>, convert: string -> string)
    ensures Walk(entries, convert).error == None <==>
              forall i :: 0 <= i < |entries| ==> !Visit(entries[i], convert).Failed?
    decreases |entries|
  {
    if |entries| > 0 {
      WalkSucceeds(entries[1..], convert);
      assert forall i :: 0 < i < |entries| ==> entries[i] == entries[1..][i - 1];
    }
  }

  /**
   * Every write is of a regular `.sh` file that could be read and
   * written, with its converted text, which differs from its content.
   */
  lemma {:induction false} WritesAreChangedScripts(entries: seq<Entry>, convert: string -> string)
    ensures forall w :: w in Walk(entries, convert).writes ==>
              exists e :: e in entries && IsScript(e) && e.accessible && e.readable && e.writable &&
                          convert(e.content) != e.content && w == Write(e.path, convert(e.content))
    decreases |entries|
  {
    if |entries| > 0 {
      WritesAreChangedScripts(entries[1..], convert);
      forall w | w in Walk(entries, convert).writes
        ensures exists e :: e in entries && IsScript(e) && e.accessible && e.readable && e.writable &&
                            convert(e.content) != e.content && w == Write(e.path, convert(e.content))
      {
        if w !in Walk(entries[1..], convert).writes {
          assert entries[0] in entries;
        } else {
          var e :| e in entries[1..] && IsScript(e) && e.accessible && e.readable && e.writable &&
                   convert(e.content) != e.content && w == Write(e.path, convert(e.content));
          assert e in entries;
        }
      }
    }
  }

  /** When the walk succeeds, every script whose text the conversion changes is written. */
  lemma {:induction false} ChangedScriptsAreWritten(entries: seq<Entry>, convert: string -> string)
    requires Walk(entries, convert).error == None
    ensures forall e :: e in entries && IsScript(e) && convert(e.content) != e.content ==>
              Write(e.path, convert(e.content)) in Walk(entries, convert).writes
    decreases |entries|
  {
    if |entries| > 0 {
      assert Walk(entries[1..], convert).error == None;
      ChangedScriptsAreWritten(entries[1..], convert);
      forall e | e in entries && IsScript(e) && convert(e.content) != e.content
        ensures Write(e.path, convert(e.content)) in Walk(entries, convert).writes
      {
        if e != entries[0] {
          assert e in entries[1..];
        }
      }
    }
  }

  /** An accessible entry that is not a regular `.sh` file has no effect on the walk. */
  lemma {:induction false} NonScriptIgnored(a: seq<Entry>, e: Entry, b: seq<Entry>, convert: string -> string)
    requires e.accessible && !IsScript(e)
    ensures Walk(a + [e] + b, convert) == Walk(a + b, convert)
    decreases |a|
  {
    if |a| == 0 {
      assert a + [e] + b == [e] + b && a + b == b;
      assert ([e] + b)[1..] == b;
    } else {
      assert (a + [e] + b)[0] == a[0] && (a + b)[0] == a[0];
      assert (a + [e] + b)[1..] == a[1..] + [e] + b;
      assert (a + b)[1..] == a[1..] + b;
      NonScriptIgnored(a[1..], e, b, convert);
    }
  }

  /** A root that cannot be accessed fails the pass at once, before any write. */
  lemma MissingRoot(dir: string, entries: seq<Entry>, convert: string -> string)
    requires |entries| > 0 && entries[0].path == dir && !entries[0].accessible
    ensures Walk(entries, convert).writes == []
    ensures PassError(dir, Walk(entries, convert).error) == Some(ProcessingFailed(dir, AccessFailed(dir)))
  {
  }

  /**
   * With an idempotent conversion, a second walk over the files as the
   * first successful walk left them writes nothing and fails nowhere.
   */
  lemma {:induction false} SecondWalkIdle(entries: seq<Entry>, convert: string -> string)
    requires forall s :: convert(convert(s)) == convert(s)
    requires Walk(entries, convert).error == None
    ensures Walk(AfterWalk(entries, convert), convert) == WalkResult([], None)
    decreases |entries|
  {
    if |entries| > 0 {
      var e := entries[0];
      assert Walk(entries[1..], convert).error == None;
      SecondWalkIdle(entries[1..], convert);
      var e' := AfterVisit(e, convert);
      assert !Visit(e', convert).Failed? && !Visit(e', convert).Rewritten? by {
        if Visit(e, convert).Rewritten? {
          assert convert(convert(e.content)) == convert(e.content);
        }
      }
      assert AfterWalk(entries, convert)[1..] == AfterWalk(entries[1..], convert);
    }
  }
}
