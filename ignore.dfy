/** The ignore list and the filter that consults it (src/main.rs,
    `parse_hist_ignore` and `ignore`). The two environment variables are
    passed in as values, None when unset. */
module IgnoreFilter {
  import opened Bytes
  import opened Outcomes

  /** The names one colon-separated variable contributes; empty pieces count. */
  function Pieces(env: Option<bytes>): set<bytes> {
    match env
    case None => {}
    case Some(v) => set p | p in SplitOn(v, COLON)
  }

  /** `parse_hist_ignore`: every `:`-piece of HISTIGNORE, then of HHIGNORE, is
      inserted into one set. */
  method ParseHistIgnore(histignore: Option<bytes>, hhignore: Option<bytes>) returns (ret: set<bytes>)
    ensures ret == Pieces(histignore) + Pieces(hhignore)
  {
    ret := {};
    if histignore.Some? {
      var pieces := SplitOn(histignore.value, COLON);
      for k := 0 to |pieces|
        invariant ret == set i | 0 <= i < k :: pieces[i]
      {
        ret := ret + {pieces[k]};
      }
      assert ret == Pieces(histignore) by {
        forall p | p in ret ensures p in Pieces(histignore) { }
        forall p | p in Pieces(histignore) ensures p in ret {
          var i :| 0 <= i < |pieces| && pieces[i] == p;
        }
      }
    }
    ghost var first := ret;
    if hhignore.Some? {
      var pieces := SplitOn(hhignore.value, COLON);
      for k := 0 to |pieces|
        invariant ret == first + set i | 0 <= i < k :: pieces[i]
      {
        ret := ret + {pieces[k]};
      }
      assert ret == first + Pieces(hhignore) by {
        forall p | p in Pieces(hhignore) ensures p in ret {
          var i :| 0 <= i < |pieces| && pieces[i] == p;
        }
      }
    }
  }

  /** An empty HISTIGNORE still contributes a name: the empty one. */
  lemma EmptyVariableAddsEmptyName()
    ensures Pieces(Some([])) == {[]}
  {
    assert SplitOn([], COLON) == [[]];
  }

  /** Some token of the command contains `>` or `|`. */
  predicate AnyRedirect(cmd: seq<bytes>) {
    cmd != [] && (GT in cmd[0] || PIPE in cmd[0] || AnyRedirect(cmd[1..]))
  }

  lemma {:induction false} AnyRedirectAt(cmd: seq<bytes>)
    ensures AnyRedirect(cmd) <==> exists k :: 0 <= k < |cmd| && (GT in cmd[k] || PIPE in cmd[k])
  {
    if cmd != [] {
      AnyRedirectAt(cmd[1..]);
      if exists k :: 0 <= k < |cmd| && (GT in cmd[k] || PIPE in cmd[k]) {
        var k :| 0 <= k < |cmd| && (GT in cmd[k] || PIPE in cmd[k]);
        if k > 0 {
          assert cmd[1..][k - 1] == cmd[k];
        }
      }
    }
  }

  /** `cmd[0]` is a comment or the recorder itself. */
  predicate IsCommentOrSelf(cmd: seq<bytes>)
    requires |cmd| > 0
  {
    (|cmd[0]| > 0 && cmd[0][0] == HASH) || cmd[0] == CRATE_NAME
  }

  /** `ignore`: whether the command (without index and timestamp) is dropped. */
  function Ignore(cmd: seq<bytes>, skip: set<bytes>): (r: bool)
    requires |cmd| > 0
    ensures r <==> IsCommentOrSelf(cmd) ||
                   (cmd[0] != NOHUP && (forall k :: 0 <= k < |cmd| ==> GT !in cmd[k] && PIPE !in cmd[k]) &&
                    cmd[0] in skip)
  {
    AnyRedirectAt(cmd);
    if IsCommentOrSelf(cmd) then true
    else if cmd[0] == NOHUP || AnyRedirect(cmd) then false
    else cmd[0] in skip
  }

  /** Rule 1: comments and the recorder's own runs are always dropped, whatever
      the list holds and even when a token redirects or pipes. */
  lemma CommentsAndSelfIgnored(cmd: seq<bytes>, skip: set<bytes>)
    requires |cmd| > 0 && IsCommentOrSelf(cmd)
    ensures Ignore(cmd, skip)
  {
  }

  /** Rule 2: otherwise a `nohup` command, or one with a token containing `>`
      or `|`, is always kept, even when its name is on the list. */
  lemma RedirectsAndNohupKept(cmd: seq<bytes>, skip: set<bytes>, k: nat)
    requires |cmd| > 0 && !IsCommentOrSelf(cmd)
    requires cmd[0] == NOHUP || (k < |cmd| && (GT in cmd[k] || PIPE in cmd[k]))
    ensures !Ignore(cmd, skip)
  {
    AnyRedirectAt(cmd);
  }

  /** Rule 3: in every other case the command is dropped exactly when its name
      is on the list. */
  lemma OtherwiseListDecides(cmd: seq<bytes>, skip: set<bytes>)
    requires |cmd| > 0 && !IsCommentOrSelf(cmd) && cmd[0] != NOHUP
    requires forall k :: 0 <= k < |cmd| ==> GT !in cmd[k] && PIPE !in cmd[k]
    ensures Ignore(cmd, skip) <==> cmd[0] in skip
  {
    AnyRedirectAt(cmd);
  }

  /** With the list built from the environment: a plain command is dropped
      exactly when its name is a `:`-piece of HISTIGNORE or of HHIGNORE. */
  lemma IgnoredByEnvironment(cmd: seq<bytes>, histignore: Option<bytes>, hhignore: Option<bytes>)
    requires |cmd| > 0 && !IsCommentOrSelf(cmd) && cmd[0] != NOHUP
    requires forall k :: 0 <= k < |cmd| ==> GT !in cmd[k] && PIPE !in cmd[k]
    ensures Ignore(cmd, Pieces(histignore) + Pieces(hhignore)) <==>
              (histignore.Some? && cmd[0] in SplitOn(histignore.value, COLON)) ||
              (hhignore.Some? && cmd[0] in SplitOn(hhignore.value, COLON))
  {
    OtherwiseListDecides(cmd, Pieces(histignore) + Pieces(hhignore));
  }
}
