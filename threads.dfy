/**
  The one piece of the thread bookkeeping that is plain sequential code:
  finding a free worker slot.  Each slot carries an availability flag;
  the lowest available slot is handed out, and finding none although the
  caller believed one was free is reported as control corruption (the
  program prints an error and exits).
*/
module Threads {
  datatype Slot = Found(index: nat) | Corrupted

  /** thread_find: the first available slot, if any. */
  method ThreadFind(avail: array<bool>) returns (r: Slot)
    ensures r.Found? ==> r.index < avail.Length && avail[r.index]
    ensures r.Found? ==> forall j :: 0 <= j < r.index ==> !avail[j]
    ensures r.Corrupted? <==> forall j :: 0 <= j < avail.Length ==> !avail[j]
  {
    var i := 0;
    while i < avail.Length
      invariant 0 <= i <= avail.Length
      invariant forall j :: 0 <= j < i ==> !avail[j]
    {
      if avail[i] {
        return Found(i);
      }
      i := i + 1;
    }
    return Corrupted;
  }
}
