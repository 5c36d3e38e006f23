/** What the two ends of a connection send each other. */
module Messages {
  import opened Words
  import opened Wrapping

  datatype SenderMessage = SenderMessage(seqno: Wrap32, syn: bool, payload: Bytes, fin: bool) {
    function SequenceLength(): nat {
      (if syn then 1 else 0) + |payload| + (if fin then 1 else 0)
    }
  }

  datatype ReceiverMessage = ReceiverMessage(ackno: Option<Wrap32>, window: u16)
}
