/** The objects of the failover store, each method tied to the functions of module BufferStore. */
module Failover {
  import opened Bytes
  import opened Messages
  import opened BufferFile
  import opened BufferStore

  /** The secondary FileStore: the buffer directory, oldest file first, and whether the last file is open. */
  class FileStore {
    var files: seq<bytes>
    var isOpen: bool

    predicate Valid()
      reads this
    {
      isOpen ==> files != []
    }

    constructor (files: seq<bytes>)
      ensures Valid() && this.files == files && !isOpen
    {
      this.files := files;
      isOpen := false;
    }

    method CloseFile()
      requires Valid()
      modifies this
      ensures Valid() && !isOpen && files == Closed(old(files), old(isOpen))
    {
      if !isOpen { return; }
      if files[|files| - 1] == [] { files := files[..|files| - 1]; }
      isOpen := false;
    }

    method Open()
      requires Valid()
      modifies this
      ensures Valid() && isOpen && files == Closed(old(files), old(isOpen)) + [[]]
    {
      if isOpen { CloseFile(); }
      files := files + [[]];
      isOpen := true;
    }

    method DoAddMessage(m: Message)
      requires Valid() && isOpen && Fits(m)
      modifies this
      ensures Valid() && isOpen && |files| == |old(files)|
      ensures var last := |old(files)| - 1; files == old(files)[last := old(files)[last] + EncodeMessage(m)]
    {
      var last := |files| - 1;
      var file := new File(files[last]);
      file.Write(m.topic);
      file.Write(m.content);
      assert file.data == files[last] + EncodeMessage(m);
      files := files[last := file.data];
    }

    method GetOldestMessages() returns (ms: seq<Message>)
      requires Valid() && files != []
      ensures ms == Decode(files[0], 0)
    {
      var file := new File(files[0]);
      ms := file.ReadMessages();
    }

    method DeleteOldestMessages()
      requires files != [] && !isOpen
      modifies this
      ensures Valid() && !isOpen && files == old(files)[1..]
    {
      files := files[1..];
    }

    method Cron(due: bool)
      requires Valid()
      modifies this
      ensures Valid()
      ensures if old(isOpen) && due then isOpen && files == Closed(old(files), true) + [[]]
              else files == old(files) && isOpen == old(isOpen)
    {
      if isOpen && due { Open(); }
    }
  }

  class BufferedStore {
    var status: Status
    var queue: seq<Message>
    var delivered: seq<Message>
    const secondary: FileStore
    const maxMsgPerCron: nat

    function View(): (r: Store)
      reads this, secondary
    {
      Store(status, queue, secondary.files, secondary.isOpen, delivered)
    }

    /** Construction and Open, over the buffer files an earlier process left. */
    constructor (buffered: seq<bytes>, env: Env)
      ensures fresh(secondary) && secondary.Valid() && maxMsgPerCron == 100
      ensures View() == Opened(buffered, env)
    {
      secondary := new FileStore(buffered);
      maxMsgPerCron := 100;
      status, queue, delivered := ToPrimary, [], [];
      new;
      if env.primaryOpen {
        if secondary.files != [] { status := Transfering; }
      } else {
        secondary.Open();
        status := ToSecondary;
      }
    }

    method DoAddMessage(m: Message, env: Env)
      requires secondary.Valid() && Fits(m)
      modifies this, secondary
      ensures secondary.Valid() && View() == DoAdd(old(View()), m, env)
    {
      if status == ToPrimary {
        if env.primaryOpen && env.accepts(0) {
          delivered := delivered + [m];
        } else {
          secondary.Open();
          status := ToSecondary;
        }
      }
      if status == ToSecondary || status == Transfering {
        if !secondary.isOpen { secondary.Open(); }
        secondary.DoAddMessage(m);
      }
    }

    /** At most maxMsgPerCron messages are popped; a refused one is dropped and ends the turn. */
    method DrainQueue(env: Env)
      modifies this
      ensures View() == Drained(old(View()), env, maxMsgPerCron)
    {
      var cnt := 0;
      ghost var goal := Transfer(queue, env.accepts, 0, maxMsgPerCron);
      assert delivered + goal.1 == old(delivered) + goal.1;
      while queue != [] && cnt < maxMsgPerCron
        invariant status == old(status)
        invariant var (left, taken) := Transfer(queue, env.accepts, cnt, maxMsgPerCron);
                  left == goal.0 && delivered + taken == old(delivered) + goal.1
        decreases |queue|
      {
        var m := queue[0];
        ghost var rest := Transfer(queue[1..], env.accepts, cnt + 1, maxMsgPerCron).1;
        queue := queue[1..];
        cnt := cnt + 1;
        if !env.accepts(cnt - 1) {
          assert delivered + [] == delivered;
          return;
        }
        assert delivered + ([m] + rest) == delivered + [m] + rest;
        delivered := delivered + [m];
      }
      assert delivered + [] == delivered;
    }

    /** The oldest buffer file becomes the queue; the current one is closed first so that it can be read too. */
    method ReadOldestFile()
      requires secondary.Valid()
      modifies this, secondary
      ensures secondary.Valid() && View() == Refill(old(View()))
    {
      if queue == [] && secondary.files != [] {
        secondary.CloseFile();
        if secondary.files != [] {
          queue := secondary.GetOldestMessages();
          secondary.DeleteOldestMessages();
        }
      }
    }

    method SwitchBack()
      requires secondary.Valid()
      modifies this, secondary
      ensures secondary.Valid() && View() == Finish(old(View()))
    {
      if queue == [] && secondary.files == [] {
        status := ToPrimary;
        secondary.CloseFile();
      }
    }

    method Cron(env: Env)
      requires secondary.Valid()
      modifies this, secondary
      ensures secondary.Valid() && View() == DoCron(old(View()), env, maxMsgPerCron)
    {
      if status == ToSecondary && env.primaryOpen {
        status, queue := Transfering, [];
      }
      if status == Transfering {
        DrainQueue(env);
        ReadOldestFile();
        SwitchBack();
      }
      secondary.Cron(env.rotate);
    }
  }
}
