/**
 An open file and the read call on it.  How much of what is asked for a call delivers is up to the
 kernel: `answers` fixes it, call by call, in an arbitrary way.
 */
module FileRead {

  class File {
    const content: string
    const answers: nat -> int
    var pos: nat
    var calls: nat

    constructor (content: string, answers: nat -> int)
      ensures Valid() && this.content == content && this.answers == answers && pos == 0 && calls == 0
    {
      this.content, this.answers := content, answers;
      pos, calls := 0, 0;
    }

    ghost predicate Valid()
      reads this
    {
      pos <= |content|
    }

    // One of the read calls since the first `since` has failed.
    ghost predicate Failed(since: nat)
      reads this
    {
      exists k: nat :: since <= k < calls && answers(k) < 0
    }

    // read: at least one byte unless none is asked for or none is left, or -1.
    method Read(buf: array<char>, at: nat, n: nat) returns (r: int)
      requires Valid() && at + n <= buf.Length
      modifies this, buf
      ensures Valid() && calls == old(calls) + 1
      ensures r == -1 <==> answers(old(calls)) < 0
      ensures -1 <= r <= n && pos == old(pos) + if r > 0 then r else 0
      ensures r == 0 <==> answers(old(calls)) >= 0 && (n == 0 || old(pos) == |content|)
      ensures forall k :: 0 <= k < buf.Length ==>
                            buf[k] == if at <= k < at + r then content[old(pos) + k - at] else old(buf[k])
    {
      r := answers(calls);
      calls := calls + 1;
      if r < 0 {
        return -1;
      }
      var most := if n <= |content| - pos then n else |content| - pos;
      r := if r > most then most else if r == 0 && most > 0 then 1 else r;
      forall k | at <= k < at + r {
        buf[k] := content[pos + k - at];
      }
      pos := pos + r;
    }

    // lseek to the start
    method Rewind()
      modifies this
      ensures Valid() && pos == 0 && calls == old(calls)
    {
      pos := 0;
    }
  }
}
