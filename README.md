# supix DAQ core in Dafny

This project models the data-acquisition core of the supix pixel-chip readout.
The chip's FPGA streams 32-bit words, one per pixel, through a FIFO. Each word packs:

- the ADC value (16 bits);
- the column (4 bits);
- the row (7 bits);
- bit 27, which is never decoded;
- a 4-bit frame id.

A frame is 64 rows of 16 columns (1024 words). Its last pixel, at address `0x40F` (row 64, column 15), is the sentinel used to re-synchronise with the stream.

Two programs are modelled.

**The threaded DAQ (`SupixDAQ`)** has two threads around a cyclic pipeline of frame slots (`pipeline_t`).

- The *reader* does three things:
  - it locates the last pixel to align with frame boundaries;
  - it checks every frame it reads (column, row, same frame id, consecutive frame id);
  - it then hands the frame to the pipeline.
- The *writer* takes each new frame at the out slot and works in this order:
  1. It decodes the frame.
  2. It pushes the frame's ADC values and correlated double sampling (CDS: ADC minus the previous frame's ADC) onto two depth-bounded history stacks (`ostack_t`).
  3. It triggers, either periodically or on pixels whose CDS falls below their threshold.
  4. It writes out the pre-trigger frames (replayed from the pipeline and the stacks), the current frame, and the frames of the post-trigger window.
  5. It tells the pipeline which write-out mode it used.
- The reader waits with an escalating `wait_timeout` while the pipeline is full or the last first frame is unprocessed. The writer instead polls with a fixed sleep, and stops polling once the run is stopped.
- The run configuration comes from setters with defaults.

**The older single-process reader (`SupixFPGA`)** works on its own ring of slots.

- It re-synchronises on the last pixel.
- It checks each pixel while storing it, computes the CDS, and counts firing pixels.
- It then follows a branch table that records the pre-trigger frames, the current frame and the post-trigger frames.

## Modules

| file | module | contents |
|---|---|---|
| defs.dfy | `SupixDefs` | geometry, masks, trigger bits, arithmetic helpers |
| codec.dfy | `PixelCodec` | the packed pixel word: both decoders and the packing inverse |
| pipeline.dfy | `Pipeline` | the threaded DAQ's pipeline, first as state functions with invariants over reader/writer interleavings, then as class `Pipe` |
| ostack.dfy | `ObjectStack` | `ostack_t` as class `OStack` over an array, plus the replay it supports |
| integrity.dfy | `Integrity` | the threaded DAQ's frame check and last-pixel search |
| config.dfy | `DaqConfig` | the run-configuration setters |
| waiting.dfy | `Waiting` | `wait_timeout` |
| daq.dfy | `Daq` | the threaded DAQ's reader and writer steps, as class `SupixDaq` |
| fpga.dfy | `FpgaDaq` | the single-process reader, as class `SupixFpga` |

The output files are modelled as append-only ghost record sequences: `sink` in `SupixDaq` and `records` in `SupixFpga`. The FIFO words, the byte counts of reads, the result of the last-pixel search, and the output-file size test are all method parameters.

## Model

| member | source | states |
|---|---|---|
| PixelCodec.Decode | SupixDAQ.cxx:1091-1108 | every word decodes to fields within their masks (adc < 2^16, col < 16, row < 128, fid < 16) |
| PixelCodec.Encode | mydefs.h:43-51 | packing in-range fields gives a word whose bit 27 is clear |
| PixelCodec.DecodersAgree | SupixFPGA.cxx:864-876 | the FPGA program's positioned-mask decoder and the threaded DAQ's shift decoder extract the same four fields from every word |
| PixelCodec.DecodeEncode | SupixDAQ.cxx:1091-1108 | decoding a packed word gives back exactly the packed fields |
| PixelCodec.EncodeDecode | SupixDAQ.cxx:1091-1108 | re-packing a decoded word gives the original word with bit 27 cleared: decoding loses bit 27 and nothing else |
| PixelCodec.DecodeInjectiveUpToBit27 | SupixDAQ.cxx:1091-1108 | two words decode alike iff they agree outside bit 27, and they are equal iff they also agree on bit 27 |
| PixelCodec.ClearBit27 | SupixDAQ.cxx:1091-1108 | clearing bit 27 leaves a 32-bit word whose decoded fields do not change |
| PixelCodec.LastPixelAddress | SupixDAQ.cxx:983 | the address (row << 4) + col equals 0x40F iff the pixel is row 64, column 15 |
| Pipeline.InitialInv | pipeline.h:31-39 | the constructor raises the capacity to at least prmx + 1 and starts in a state that satisfies the pipeline invariant and the first-frame-marker invariant |
| Pipeline.WfKept | pipeline.h:89-199 | every pipeline call keeps counters and positions in range, whichever thread makes it and whether or not it waited |
| Pipeline.IncIsMod | pipeline.h:135-136 | the cyclic increment equals (x + 1) mod max |
| Pipeline.InPosValue | pipeline.h:120-199 | under the invariant, the in position is the out position plus the saved count, wrapped at most once |
| Pipeline.DistanceIsSaved | pipeline.h:120-199 | below capacity, the cyclic distance from the out slot to the in slot is the saved count |
| Pipeline.StepInv | pipeline.h:89-199 | any single call allowed by the threads' wait discipline keeps both invariants |
| Pipeline.NextOutInv | pipeline.h:166-199 | next_out, in any write-out mode, keeps both invariants when the writer holds a frame |
| Pipeline.MarkerStep | pipeline.h:166-178 | next_out brings the out slot one step closer to a set first-frame marker it has not reached |
| Pipeline.RunInv | pipeline.h:89-199 | any interleaving of reader and writer calls that obeys the wait discipline keeps both invariants |
| Pipeline.Stability | pipeline.h:86-114 | a writer call cannot make the pipeline full, and a reader call cannot take away the writer's new frame or change the writer's out slot and post count |
| Pipeline.ReaderNeverMarksOut | pipeline.h:120-141 | a marker the reader sets never lands on the slot the writer is processing |
| Pipeline.ResetFirstEffect | pipeline.cxx:50-57 | reset_first clears the marker and the pre/post counts and is idempotent; is_first acts as reset_first exactly when the marker is at the out slot, and otherwise changes nothing |
| Pipeline.NextOutTable | pipeline.h:166-199 | next_out never touches the in position or the marker, releases one frame, and updates pre and post by the mode table |
| Pipeline.PreSlots | pipeline.h:222-233 | get_pre_ptr(0..pre-1) address the pre slots just before the out slot, consecutively and in range, ending at the out slot, never at the reader's in slot |
| Pipeline.SlotsDisjoint | pipeline.h:120-178 | while the writer holds a frame and the pipeline is not full, the reader fills a different slot |
| Pipeline.Pipe.constructor | pipeline.h:31-39 | the new pipeline is in the initial state, and both invariants hold |
| Pipeline.Pipe.IsFull | pipeline.h:89-99 | true iff saved + pre reaches the capacity |
| Pipeline.Pipe.IsNew | pipeline.h:104-114 | true iff a saved frame waits for the writer |
| Pipeline.Pipe.IsPost | pipeline.h:50-51 | true iff a post-trigger window is open |
| Pipeline.Pipe.GetPre | pipeline.h:52-53 | the number of frames kept for replay, never above preMax |
| Pipeline.Pipe.NextIn | pipeline.h:120-141 | the answer and the new counters are those of the next_in state function |
| Pipeline.Pipe.IsFirst | pipeline.h:146-164 | the answer and the new counters are those of the is_first state function |
| Pipeline.Pipe.ResetFirst | pipeline.cxx:50-57 | the new counters are those of the reset_first state function |
| Pipeline.Pipe.NextOut | pipeline.h:166-199 | the new counters are those of the next_out state function |
| Pipeline.Pipe.GetInPtr | pipeline.h:203-210 | the slot index is the in position and lies in range |
| Pipeline.Pipe.GetOutPtr | pipeline.h:212-219 | the slot index is the out position and lies in range |
| Pipeline.Pipe.GetPrePtr | pipeline.h:222-233 | the slot is (out - (pre - n)) mod max |
| ObjectStack.BubbleSeq | pipeline.h:302-312 | bubbling moves the deepest object to the top and shifts the others down, keeping the length |
| ObjectStack.Deepest | pipeline.h:302-329 | the n deepest objects, deepest first |
| ObjectStack.ReplayTakesDeepest | pipeline.h:302-329 | n rounds of bubble, take the top, pop yield the n deepest objects, deepest first, and leave the stack's top part in order |
| ObjectStack.BubbleDeepest | pipeline.h:302-312 | on a stack whose k deepest objects were popped, bubble brings the (k+1)-th deepest object to the top |
| ObjectStack.OStack.constructor | pipeline.h:242-249 | an empty stack with room for n objects |
| ObjectStack.OStack.GetDepth | pipeline.h:283-286 | the depth, never above the capacity |
| ObjectStack.OStack.Get | pipeline.h:258-259 | the object in slot k; decode_frame reads the last ADC frame (slot 1) and trig_cds the current CDS frame (slot 0) through it |
| ObjectStack.OStack.SetTop | pipeline.h:258-259 | a write through get_top replaces only slot 0 |
| ObjectStack.OStack.Push | pipeline.h:289-299 | push shifts the contents one slot deeper, drops the deepest object when the stack is full, and keeps the old top in slot 0 |
| ObjectStack.OStack.Pop | pipeline.h:316-329 | pop removes the top and shifts the rest up; an empty stack answers -1 and is unchanged |
| ObjectStack.OStack.Bubble | pipeline.h:302-312 | the contents become BubbleSeq of the old contents; slots below the depth are untouched |
| Integrity.FidDiff | SupixDAQ.cxx:1064-1068 | the cyclic frame-id distance is between 1 and 16; it is 1 iff the id is the successor, and 16 iff the id repeats |
| Integrity.WordFlags | SupixDAQ.cxx:1055-1070 | the flags of a word are zero iff the word has the right column and row, repeats the frame's id, and, when a last id is known, that id is consecutive |
| Integrity.FlagBits | SupixDAQ.cxx:1035-1070 | each flag bit is set iff its own fault is present |
| Integrity.ScanFrom | SupixDAQ.cxx:1052-1075 | the scan result is a 4-bit flag set; its meaning (zero iff every remaining word is good, otherwise the first bad word's flags) is proved by Integrity.ScanZeroIff and Integrity.FirstBadWord |
| Integrity.ScanZeroIff | SupixDAQ.cxx:1052-1075 | the scan from word i finds no fault iff every remaining word is good |
| Integrity.CleanFrameIff | SupixDAQ.cxx:1033-1086 | a frame passes iff every word sits at its own row and column, all words share word 0's id, and that id follows the last frame's id (or no id is known) |
| Integrity.FirstBadWord | SupixDAQ.cxx:1072-1075 | a nonzero result is the flags of the first bad word, and every word before it is good |
| Integrity.CheckWord | SupixDAQ.cxx:1055-1072 | the loop body computes the flags of word ir*16 + ic |
| Integrity.CheckIntegrity | SupixDAQ.cxx:1033-1086 | the result is the flags of the first bad word, zero iff the frame is clean; fid_last becomes the frame's id on success and 16 ("unknown") on failure |
| Integrity.ReadRequest | SupixDAQ.cxx:1148-1156 | read_fifo never issues an empty read: a request of 0 bytes becomes a whole frame, any other size is honoured, and a request of at most a frame stays between 1 byte and a frame |
| Integrity.LocateForwardWords | SupixDAQ.cxx:1008-1012 | for a sentinel at word k the forward read is a whole number of words, between one word and a frame, skips 1023 - k words modulo a frame, and is a whole frame exactly when the sentinel is the last word |
| Integrity.LocateLastPixel | SupixDAQ.cxx:981-1022 | a stopped run returns the first read; otherwise npix is the first sentinel among the 1024 words, and the forward read happens iff it was found, with a size between 1 and a frame |
| Integrity.Window | SupixDAQ.cxx:981-1022 | a window of n consecutive stream words has length n; where its sentinel lies is proved by Integrity.SentinelInWindow |
| Integrity.StreamSentinel | SupixDAQ.cxx:981-1022 | in a well-formed stream a word is a sentinel iff it is the last word of a frame |
| Integrity.SentinelInWindow | SupixDAQ.cxx:981-1022 | reading a frame that starts s words into a stream frame, the first sentinel is at word 1023 - s |
| Integrity.LocateAsWrittenOffset | SupixDAQ.cxx:1008-1012 | as written, a reader that enters s words into a frame ends 2s (mod 1024) words into a frame |
| Integrity.LocateMisaligns | SupixDAQ.cxx:1008-1012 | entering one word into a frame, the forward read is 4 bytes and leaves the reader two words into a frame |
| Integrity.LocateFixedAligns | SupixDAQ.cxx:1008-1012 | with a forward of k + 1 words the reader lands on a frame boundary from every offset, with a read size between 1 and a frame |
| DaqConfig.ChipAddrOf | SupixDAQ.h:53 | the address lies in [0, NMATRIX); a negative argument gives 0, an in-range one is kept, and a larger one is reduced mod NMATRIX |
| DaqConfig.PreTrigsOf | SupixDAQ.h:54 | a nonnegative count is kept; a negative one gives the default 3 |
| DaqConfig.PostTrigsOf | SupixDAQ.h:55 | a nonnegative count is kept; a negative one gives the default 6 |
| DaqConfig.TrigPeriodOf | SupixDAQ.h:56 | a positive period is kept; otherwise the default 31250 |
| DaqConfig.RunInfo.constructor | SupixDAQ.h:53-56 | each setter called with its default argument -1: chip 0, 3 pre-triggers, 6 post-triggers, period 31250 |
| DaqConfig.RunInfo.SetChipAddr | SupixDAQ.h:53 | sets the chip address and no other field |
| DaqConfig.RunInfo.SetPreTrigs | SupixDAQ.h:54 | sets the pre-trigger count and no other field |
| DaqConfig.RunInfo.SetPostTrigs | SupixDAQ.h:55 | sets the post-trigger count and no other field |
| DaqConfig.RunInfo.SetTrigPeriod | SupixDAQ.h:56 | sets the trigger period and no other field |
| Waiting.InitialWaiting | SupixDAQ.cxx:1399-1401 | the first call starts in a waiting state |
| Waiting.StopExpires | SupixDAQ.cxx:1403-1406 | with the run stopped, the wait gives up at once and changes nothing |
| Waiting.WaitProgress | SupixDAQ.cxx:1407-1423 | a call that does not give up stays waiting and strictly lowers a nonnegative rank, so waiting always ends |
| Waiting.WaitStep | SupixDAQ.cxx:1396-1424 | every call keeps the statics in range, and one that does not give up lowers the rank |
| Waiting.RankPositive | SupixDAQ.cxx:1396-1424 | a waiting state has a positive rank |
| Waiting.TenthTryExpires | SupixDAQ.cxx:1410-1421 | once nine tries have passed and the accumulated wait has reached the timeout, the next call gives up |
| Waiting.Waiter.constructor | SupixDAQ.cxx:1399-1401 | the statics start with no tries and no accumulated wait |
| Waiting.Waiter.WaitTimeout | SupixDAQ.cxx:1396-1424 | the answer and the new statics are those of the wait_timeout state function |
| Daq.StackDepth | SupixDAQ.cxx:212-214 | the stacks hold pre_trigs + 1 frames, and at least 2 |
| Daq.FrameAdc | SupixDAQ.cxx:736-762 | pixel i's ADC is the adc field of word i |
| Daq.FrameCds | SupixDAQ.cxx:752-756 | pixel i's CDS is 0 on a first frame and otherwise ADC minus the previous frame's ADC |
| Daq.Fired | SupixDAQ.cxx:805-818 | at most n pixel ids; that they are exactly the firing pixels, in increasing order, is proved by Daq.FiredMeaning |
| Daq.FiredMeaning | SupixDAQ.cxx:805-818 | the ids listed are exactly the pixels whose CDS is below their threshold, in strictly increasing order |
| Daq.TrigPattern | SupixDAQ.cxx:776-786 | the pattern is nonzero iff frame + 1 is a multiple of the period or some pixel fired |
| Daq.TrigBits | SupixDAQ.cxx:776-786 | bit 0 is the periodic trigger and bit 1 the CDS trigger |
| Daq.RawPre | SupixDAQ.cxx:933-940 | the n raw records are the slots get_pre_ptr(0..n-1) |
| Daq.FidForward | SupixDAQ.cxx:965 | stepping the frame id forward from k frames back gives k - 1 frames back |
| Daq.TreePre | SupixDAQ.cxx:943-966 | write_out(n) makes one tree entry per replayed frame |
| Daq.TreePreAsWritten | SupixDAQ.cxx:955-962 | as written, entry j is labelled frame - n + j but holds the data of frame frame - depth + 1 + j |
| Daq.ReplayMislabels | SupixDAQ.cxx:955-962 | with depth 4 and one pre-trigger frame, the entry labelled frame 3 holds frame 1's data |
| Daq.TreePreFixed | SupixDAQ.cxx:955-962 | the intended replay takes the n stack entries just below the current frame, oldest first |
| Daq.TreePreFixedMatches | SupixDAQ.cxx:955-962 | with the intended replay, every entry holds the data of the frame it is labelled with, and it agrees with the code when depth = n + 1 |
| Daq.TreePreNext | SupixDAQ.cxx:955-966 | the tree records grow by one replayed entry per loop pass |
| Daq.WindowKept | SupixDAQ.cxx:842-882 | the modes do_trig chooses keep the pre count at 0 while a post-trigger window is open |
| Daq.FidRewind | SupixDAQ.cxx:952-953 | the source's conditional rewind of m_fid by n is subtraction mod 16 |
| Daq.DecodePixels | SupixDAQ.cxx:736-762 | the loop fills the frame's ADC and CDS, and the frame id is word 0's |
| Daq.CollectFired | SupixDAQ.cxx:805-820 | the count and the ids written are exactly the firing pixels; the rest of the id array is untouched |
| Daq.SupixDaq.constructor | SupixDAQ.cxx:105-219 | SupixDAQ() followed by initialize(): the initial run state: the mode is forced to continuous when no CDS trigger or no period is set, the pipeline is built with the configured capacity m_pipeline_max and pre/post counts, the stacks are pre + 1 deep (at least 2), and all counters are zero |
| Daq.SupixDaq.AltRunStatus | SupixDAQ.h:98-99 | sets the run status |
| Daq.SupixDaq.IsRunStop | SupixDAQ.h:102-103 | true iff the run status is STOP |
| Daq.SupixDaq.PushBoth | SupixDAQ.cxx:731-732 | both stacks push together, keeping more entries than pre-trigger frames |
| Daq.SupixDaq.SetTops | SupixDAQ.cxx:752-757 | the stack tops become the new ADC and CDS frames |
| Daq.SupixDaq.DecodeFrame | SupixDAQ.cxx:720-767 | the ADC stack gains the decoded frame on top; the CDS stack gains its CDS against the previous frame; the frame id is word 0's |
| Daq.SupixDaq.TrigCds | SupixDAQ.cxx:797-833 | m_pixid and m_npixs hold exactly the firing pixels |
| Daq.SupixDaq.Triged | SupixDAQ.cxx:773-793 | the trigger pattern of the current frame, with the period and CDS counters advanced by its bits |
| Daq.SupixDaq.WriteOut | SupixDAQ.cxx:902-925 | the current frame's raw slot and/or tree entry are appended to the output |
| Daq.SupixDaq.WriteRawPre | SupixDAQ.cxx:933-940 | the raw pre-trigger slots are appended to the output |
| Daq.SupixDaq.BubbleBoth | SupixDAQ.cxx:956-957 | both stacks bring their next deepest entry to the top |
| Daq.SupixDaq.PopBoth | SupixDAQ.cxx:961-962 | both stacks drop their top |
| Daq.SupixDaq.ReplayOne | SupixDAQ.cxx:955-962 | one replay step appends a tree entry of the deepest remaining stack entries and removes them |
| Daq.SupixDaq.ReplayStep | SupixDAQ.cxx:955-966 | one loop pass extends the output by the next replayed entry and advances frame and id |
| Daq.SupixDaq.ReplayLoop | SupixDAQ.cxx:955-966 | the loop appends TreePre and leaves the stacks' top part |
| Daq.SupixDaq.ReplayPre | SupixDAQ.cxx:943-968 | the tree half of write_out(n) appends TreePre and restores frame, id and trigger |
| Daq.SupixDaq.WriteOutPre | SupixDAQ.cxx:929-976 | write_out(n) appends the raw slots, then the replayed tree entries; the stacks lose n entries only when tree output is on |
| Daq.SupixDaq.WriteTriggered | SupixDAQ.cxx:842-864 | the trigger branch writes the pre-trigger frames and the current frame, and picks a mode that opens the post window |
| Daq.SupixDaq.WritePre | SupixDAQ.cxx:846-850 | the pre-trigger write-out, leaving the current frame on top |
| Daq.SupixDaq.WriteUntriggered | SupixDAQ.cxx:865-878 | without a trigger, the current frame is written only inside a post window |
| Daq.SupixDaq.FinishTrig | SupixDAQ.cxx:880-891 | records are counted, next_out runs in the chosen mode, and the files rotate exactly when the rotation condition holds |
| Daq.SupixDaq.WriteFrame | SupixDAQ.cxx:842-891 | the mode, record count, pipeline state and output of the part of do_trig after triged |
| Daq.SupixDaq.DoTrig | SupixDAQ.cxx:837-898 | the trigger pattern, the fired pixels, the mode, the count of written records, the new pipeline state, and the exact output: pre-trigger records, the current frame, and a possible file rotation |
| Daq.SupixDaq.WriterRun | SupixDAQ.cxx:448-491 | without a new frame, nothing changes and the answer is STOP or "poll again"; with one, frame and nprocs advance, the frame id is word 0's, the trigger pattern is that of the frame's fired pixels, the write-out mode follows the trigger and the post window, and the pipeline moves through is_first and next_out in that mode |
| Daq.SupixDaq.ProcessFrame | SupixDAQ.cxx:462-488 | one writer step's frame count, first flag, id, trigger and pipeline state |
| Daq.SupixDaq.DecodeAndTrig | SupixDAQ.cxx:473-483 | decoding and triggering give the frame's id and pattern, and next_out runs in the chosen mode |
| Daq.SupixDaq.StartFrame | SupixDAQ.cxx:464-471 | the first flag and the pipeline state as is_first leaves them |
| Daq.SupixDaq.WaitNotFull | SupixDAQ.cxx:374-385 | the wait succeeds iff the pipeline is not full |
| Daq.SupixDaq.WaitNextIn | SupixDAQ.cxx:413-423 | the wait succeeds iff next_in does not ask to wait, and the pipeline moves by next_in |
| Daq.SupixDaq.ReaderRun | SupixDAQ.cxx:355-444 | the reader's answer for each case: last pixel not found, pipeline full, end of file, or a frame read: a bad frame sends the run to RUN_FIRST with fid_last 16 and the pipeline untouched; a clean one sets fid_last to its id and moves the pipeline by next_in; a save counts nsaved and sets RUN_START, or RUN_STOP at maxframe |
| Daq.SupixDaq.SaveFrame | SupixDAQ.cxx:401-443 | a bad frame sends the run back to RUN_FIRST and leaves the pipeline alone; a clean one goes through next_in, and the status, saved count and run stop at maxframe follow |
| FpgaDaq.FidStep | SupixFPGA.cxx:1380-1382 | the frame-id step lies in 0..15 (0 for a repeated id) and is 1 iff the id is the successor |
| FpgaDaq.PixelFlags | SupixFPGA.cxx:1351-1410 | the flags are zero iff the pixel sits at its row and column and, after the first frame, its id is consistent |
| FpgaDaq.Pixels | SupixFPGA.cxx:1091-1093 | one decoded pixel per word |
| FpgaDaq.FirstBad | SupixFPGA.cxx:1091-1098 | the first flagged pixel at or after i, or 1024 if there is none |
| FpgaDaq.FirstBadAt | SupixFPGA.cxx:1091-1098 | a pixel that is flagged while all the pixels before it are clean is the first bad one |
| FpgaDaq.FirstFlaggedIsFirstBad | SupixFPGA.cxx:1091-1098 | "flagged with all earlier pixels clean" is the same as being the first bad pixel, and a frame is clean iff there is no bad pixel |
| FpgaDaq.FrameCleanIff | SupixFPGA.cxx:1351-1410 | a first frame passes iff every word is placed right; a later frame also needs one id that follows the last one seen |
| FpgaDaq.MixedFrame | SupixFPGA.cxx:1364-1367 | a frame of 1024 words, the witness that FpgaDaq.FirstFrameMixedFidPasses and FpgaDaq.FixedRejectsMixedFirstFrame use |
| FpgaDaq.FirstFrameMixedFidPasses | SupixFPGA.cxx:1364-1367 | as written, a first frame whose words carry two different ids passes the check |
| FpgaDaq.FlagsFixed | SupixFPGA.cxx:1364-1367 | the intended check yields a 4-bit flag set; when it is zero for a whole frame is proved by FpgaDaq.FixedFrameCleanIff |
| FpgaDaq.FixedFrameCleanIff | SupixFPGA.cxx:1364-1367 | with the intended check, a first frame passes iff placed and of one id; later frames are checked as in the code |
| FpgaDaq.FixedRejectsMixedFirstFrame | SupixFPGA.cxx:1364-1367 | the intended check rejects the mixed first frame |
| FpgaDaq.CountFired | SupixFPGA.cxx:1113-1114 | the count of firing pixels lies between 0 and n; that it is positive iff some pixel fires is proved by FpgaDaq.CountFiredPositive |
| FpgaDaq.CountFiredPositive | SupixFPGA.cxx:1113-1114 | the count is positive iff some pixel's CDS reaches its threshold |
| FpgaDaq.TrigPattern | SupixFPGA.cxx:1017-1028 | bit 0 is set iff the frame number is a multiple of the period; bit 1 iff some pixel fired |
| FpgaDaq.PreCount | SupixFPGA.cxx:1143-1145 | replays min(pre_trigs, saved) frames |
| FpgaDaq.PreRecords | SupixFPGA.cxx:1139-1178 | k + 1 records: the k earlier frames oldest first, then the current one |
| FpgaDaq.PreRecordsShape | SupixFPGA.cxx:1152-1170 | every replayed slot is (inow - j) mod size, the frames are consecutive, and all lie in range |
| FpgaDaq.TriggerKeepsOrder | SupixFPGA.cxx:1033-1056 | the branch table keeps records in strictly increasing frame order, so no frame is recorded twice |
| FpgaDaq.TakeKeepsPipeOk | SupixFPGA.cxx:1033-1060 | one passed frame keeps the bookkeeping consistent, advances the frame, sets the trigger, keeps the slot in range, and only adds records |
| FpgaDaq.SlotOverwrite | SupixFPGA.cxx:1084-1102 | storing into the current slot leaves the older slots' frames intact |
| FpgaDaq.SlotAdvance | SupixFPGA.cxx:1059-1060 | moving to the next slot keeps every slot holding the frame it is meant to |
| FpgaDaq.RecordsHoldFrames | SupixFPGA.cxx:1033-1056 | every record the branch table writes names a slot that holds that frame |
| FpgaDaq.FirstSentinel | SupixFPGA.cxx:789-814 | the first last-pixel word at or after i among the first 1024 words, or 1024 |
| FpgaDaq.LocateLastPixel | SupixFPGA.cxx:776-823 | finds the last pixel iff it is among the first 1024 words; the reads made are its position + 1, or 1025 |
| FpgaDaq.LocateAligns | SupixFPGA.cxx:776-823 | entering a well-formed stream s words into a frame, the search stops exactly at a frame boundary |
| FpgaDaq.SupixFpga.constructor | SupixFPGA.cxx:118-141 | an empty pipeline, zeroed last ADCs, no records and the first-frame flag set |
| FpgaDaq.SupixFpga.CheckIntegrity | SupixFPGA.cxx:1351-1410 | the flags of the pixel check, with the frame id seen updated |
| FpgaDaq.SupixFpga.StorePixel | SupixFPGA.cxx:1093-1119 | a passing pixel's ADC, CDS and last ADC are stored; it fires iff it passes and its CDS reaches the threshold |
| FpgaDaq.SupixFpga.ScanPixel | SupixFPGA.cxx:1092-1124 | one pixel: failing gives the failure state, and passing extends the scanned prefix |
| FpgaDaq.SupixFpga.TrigRow | SupixFPGA.cxx:1092-1125 | one row of the pixel loop, with the same two outcomes |
| FpgaDaq.SupixFpga.TrigCds | SupixFPGA.cxx:1078-1135 | -1 iff the frame fails the check, stopping at the first bad pixel; otherwise the count of firing pixels, with every pixel stored |
| FpgaDaq.SupixFpga.RecordFrame | SupixFPGA.cxx:1229-1255 | appends one record of the slot with the current frame and trigger |
| FpgaDaq.SupixFpga.RecordPreTrigs | SupixFPGA.cxx:1139-1178 | appends PreRecords for min(pre_trigs, saved) frames |
| FpgaDaq.SupixFpga.TakeData | SupixFPGA.cxx:1030-1071 | the bookkeeping moves by Take, and every new record comes from a slot holding its frame |
| FpgaDaq.SupixFpga.MarkSlot | SupixFPGA.cxx:1084-1102 | only the current slot's frame changes |
| FpgaDaq.SupixFpga.CheckFrame | SupixFPGA.cxx:1021-1026 | fails iff the frame is not clean; a clean frame gives its fired count |
| FpgaDaq.SupixFpga.DoTrigger | SupixFPGA.cxx:1007-1073 | -1 iff the frame fails, leaving the bookkeeping alone; otherwise the trigger pattern, with the bookkeeping moved by Take |
| FpgaDaq.SupixFpga.ReadStep | SupixFPGA.cxx:521-535 | one loop pass: a failed frame changes no bookkeeping or counters; a passed one ends the first frame and counts the read and a nonzero trigger |
| FpgaDaq.SupixFpga.CountFrame | SupixFPGA.cxx:529-535 | ntrigs grows iff the pattern is nonzero, nreads grows by one, and the first frame is over |
| FpgaDaq.SupixFpga.Resync | SupixFPGA.cxx:913-916 | the re-synchronisation sets the first-frame flag and finds the last pixel as LocateLastPixel does |

## Left out

- Threads, mutexes and condition variables: each pipeline call is one atomic step. Module `Pipeline` proves the invariants over arbitrary interleavings of such steps.
- The writer's `usleep` poll loop: `SupixDaq.WriterRun` models a single poll, because the writer alone cannot make a frame arrive.
- File and FIFO I/O (`open`, `read`, `write`, ROOT trees, the raw file):
  - bytes read and the results of reads and searches are parameters;
  - the output is a ghost record sequence.
- Timers and `usleep` durations, `x_counts` statistics, log and error messages.
- The output-file size test behind `new_outfiles` is a parameter. `new_outfiles` itself is the record `NewOutfiles`.
- Thresholds are `real`; the source uses floating-point `double`, and no rounding is modelled.
- `int` overflow of frame counters and of `saved` is not modelled. The counters would need more than 2^31 frames to overflow.
- The noise mode (`RecurStats` accumulation, `write_noise`) and `recommend`, `lock_run` and the signal handler.
- The FPGA program's setters and `set_trig_cds` (these are configuration reads, as in module `DaqConfig`).
- `frame_last` only feeds log output in the FPGA program and is not modelled.
- The FPGA program's raw pipeline buffer is not stored: a record names its slot, and `slotFrame` says which frame that slot holds.
- FpgaDaq.SupixFpga.constructor: the source never assigns `inow` in `initialize`, so its first value is whatever memory held. The model starts it at 0.
- FpgaDaq.LocateLastPixel: the loop test `count > NROWS*NCOLS` comes before the address test. So only the first 1024 words are examined, and 1025 reads are made when the sentinel is missing. The model follows this code rather than a 1025-word search.
- Daq.SupixDaq.TrigCds: `m_npixs` is assigned on every call, whatever the trigger mode; the model follows the code.
- The threaded DAQ triggers periodically when `(frame + 1) % period == 0`, the FPGA program when `frame % period == 0`. The CDS test is "below the threshold" in the threaded DAQ and "at or above" in the FPGA program. Each module follows its own source.
- ObjectStack.OStack.constructor: `malloc`'s uninitialised slots are modelled as filled with a given value.
- Daq.SupixDaq.ProcessFrame: the output it appends is stated by its callee `DoTrig`, not restated in its own contract.
- Daq.SupixDaq.WriterRun: like `ProcessFrame`, it does not restate the output appended by `DoTrig`; it states the frame id, trigger pattern, write-out mode and pipeline move.
- Daq.SupixDaq.ReaderRun: the writer does not run during the reader's waits in `WaitNotFull` and `WaitNextIn`, so in the model these waits end only when `wait_timeout` gives up. Its results `EIsFull` for a full pipeline and `ELast1st` for a pending first frame describe the program only when the writer makes no progress during the wait.

## Findings

| source | as written | input that shows it | evidently intended | confidence | as-written member | corrected member |
|---|---|---|---|---|---|---|
| SupixDAQ.cxx:1008-1012 | after finding the sentinel at word npix of a 1024-word read, the reader forwards 4*(NPIXS-npix-1) bytes | a stream entered 1 word into a frame: the sentinel is word 1022, the forward is 4 bytes, and the next read starts 2 words into a frame | forward the npix + 1 words that belong to the next frame, to land on a boundary | not executed | Integrity.LocateMisaligns | Integrity.LocateFixedAligns |
| SupixDAQ.cxx:955-962 | write_out(n) bubbles the deepest stack entry to the top n times, so within a stack of depth d it replays the n oldest entries, labelled as the n frames just before the current one | depth 4, one pre-trigger frame, frames 0..4 seen: the entry labelled frame 3 holds frame 1's data | replay the n entries just below the current frame | not executed | Daq.ReplayMislabels | Daq.TreePreFixedMatches |
| SupixFPGA.cxx:1364-1367 | while `m_frame_1st` is set, the frame-id memory is reset at every pixel, so the first frame's words are never compared with each other | a first frame of placed words whose pixel 5 carries id 3 while all the others carry id 2 passes | reset the memory once, at the first frame's first pixel, and check the id consistency of the rest of the frame | not executed | FpgaDaq.FirstFrameMixedFidPasses | FpgaDaq.FixedRejectsMixedFirstFrame |

The members that model the running code keep the as-written behaviour, because they model what the programs do: `Integrity.LocateLastPixel`, `Daq.SupixDaq.WriteOutPre` and `FpgaDaq.SupixFpga.CheckIntegrity`. The corrected definitions sit beside them, with their intended properties proved:

- `Integrity.LocateForwardFixed` with `Integrity.LocateFixedAligns`;
- `Daq.TreePreFixed` with `Daq.TreePreFixedMatches`;
- `FpgaDaq.FlagsFixed` with `FpgaDaq.FixedFrameCleanIff`.

The two replays of the second finding agree when the stacks hold exactly n + 1 entries, as `Daq.TreePreFixedMatches` proves. They differ whenever the pipeline's pre count is below the stack depth minus one. That happens after every gap: a first frame resets the pre count to 0, while the stacks keep their full depth. `Daq.ReplayMislabels` is that case with the default pre_trigs of 3.
