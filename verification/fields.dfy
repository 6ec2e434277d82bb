/** The table of selectable fields (ebpf/data.go) and its attributes (ebpf/fields.go). */
module Fields {
  datatype CType = U8 | U16 | U32 | U64 | U128 | Char

  /** cField, ds, math and dsnp say how the kernel program reads the field; ctype, ip and bigEndian how the agent
      decodes it. */
  datatype FieldAttrs = FieldAttrs(ctype: CType, ip: bool, cField: string, ds: string, math: string,
                                   dsnp: bool, bigEndian: bool)

  type Model = map<string, FieldAttrs>

  // The table is written in three groups: two of plain tcp_sock members, and the rest.

  function TcpSockFieldsA(): Model {
    map[
      "TCPHeaderLen" := FieldAttrs(U16, false, "tcp_header_len", "tcpi", "", false, false),
      "SRTT" := FieldAttrs(U32, false, "srtt_us", "tcpi", "", false, false),
      "RTT" := FieldAttrs(U32, false, "srtt_us", "tcpi", ">> 3", false, false),
      "MDev" := FieldAttrs(U32, false, "mdev_us", "tcpi", "", false, false),
      "MDevMax" := FieldAttrs(U32, false, "mdev_max_us", "tcpi", "", false, false),
      "RTTVar" := FieldAttrs(U32, false, "rttvar_us", "tcpi", "", false, false),
      "PacketsOut" := FieldAttrs(U32, false, "packets_out", "tcpi", "", false, false),
      "RetransOut" := FieldAttrs(U32, false, "retrans_out", "tcpi", "", false, false),
      "MaxPacketsOut" := FieldAttrs(U32, false, "max_packets_out", "tcpi", "", false, false),
      "MaxPacketsSeq" := FieldAttrs(U32, false, "max_packets_seq", "tcpi", "", false, false),
      "TotalRetrans" := FieldAttrs(U32, false, "total_retrans", "tcpi", "", false, false),
      "AdvMSS" := FieldAttrs(U16, false, "advmss", "tcpi", "", false, false),
      "BytesReceived" := FieldAttrs(U64, false, "bytes_received", "tcpi", "", false, false),
      "BytesSent" := FieldAttrs(U64, false, "bytes_sent", "tcpi", "", false, false),
      "BytesAcked" := FieldAttrs(U64, false, "bytes_acked", "tcpi", "", false, false),
      "SegsIn" := FieldAttrs(U32, false, "segs_in", "tcpi", "", false, false),
      "SegsOut" := FieldAttrs(U32, false, "segs_out", "tcpi", "", false, false),
      "DsackDups" := FieldAttrs(U32, false, "dsack_dups", "tcpi", "", false, false),
      "RateDelivered" := FieldAttrs(U32, false, "rate_delivered", "tcpi", "", false, false)
    ]
  }

  function TcpSockFieldsB(): Model {
    map[
      "RateInterval" := FieldAttrs(U32, false, "rate_interval_us", "tcpi", "", false, false),
      "SndSSThresh" := FieldAttrs(U32, false, "snd_ssthresh", "tcpi", "", false, false),
      "GSOSegs" := FieldAttrs(U16, false, "gso_segs", "tcpi", "", false, false),
      "DataSegsIn" := FieldAttrs(U32, false, "data_segs_in", "tcpi", "", false, false),
      "MaxWindow" := FieldAttrs(U32, false, "max_window", "tcpi", "", false, false),
      "SndWnd" := FieldAttrs(U32, false, "snd_wnd", "tcpi", "", false, false),
      "WindowClamp" := FieldAttrs(U32, false, "window_clamp", "tcpi", "", false, false),
      "RcvSSThresh" := FieldAttrs(U32, false, "rcv_ssthresh", "tcpi", "", false, false),
      "ECNFlags" := FieldAttrs(U8, false, "ecn_flags", "tcpi", "", false, false),
      "SndCwnd" := FieldAttrs(U32, false, "snd_cwnd", "tcpi", "", false, false),
      "PrrOut" := FieldAttrs(U32, false, "prr_out", "tcpi", "", false, false),
      "Delivered" := FieldAttrs(U32, false, "delivered", "tcpi", "", false, false),
      "DeliveredCe" := FieldAttrs(U32, false, "delivered_ce", "tcpi", "", false, false),
      "Lost" := FieldAttrs(U32, false, "lost", "tcpi", "", false, false),
      "LostOut" := FieldAttrs(U32, false, "lost_out", "tcpi", "", false, false),
      "PriorSSThresh" := FieldAttrs(U32, false, "prior_ssthresh", "tcpi", "", false, false),
      "DataSegsOut" := FieldAttrs(U32, false, "data_segs_out", "tcpi", "", false, false),
      "UnAcked" := FieldAttrs(U32, false, "packets_out", "tcpi", "", false, false),
      "SAcked" := FieldAttrs(U32, false, "sacked_out", "tcpi", "", false, false)
    ]
  }

  function OtherFields(): Model {
    map[
      "NewState" := FieldAttrs(U16, false, "newstate", "args", "", false, false),
      "OldState" := FieldAttrs(U16, false, "oldstate", "args", "", false, false),
      "RcvRTT" := FieldAttrs(U32, false, "rtt_us", "tcpi->rcv_rtt_est", "", true, false),
      "SAddr" := FieldAttrs(U32, true, "skc_rcv_saddr", "sk->__sk_common", "", true, true),
      "DAddr" := FieldAttrs(U32, true, "skc_daddr", "sk->__sk_common", "", true, true),
      "DPort" := FieldAttrs(U16, false, "skc_dport", "sk->__sk_common", "", true, true),
      "LPort" := FieldAttrs(U16, false, "skc_num", "sk->__sk_common", "", true, true),
      "NumSAcks" := FieldAttrs(U8, false, "num_sacks", "tcpi->rx_opt", "", true, false),
      "UserMSS" := FieldAttrs(U16, false, "user_mss", "tcpi->rx_opt", "", true, false),
      "RACKRTT" := FieldAttrs(U32, false, "rtt_us", "tcpi->rack", "", true, false),
      "MSSClamp" := FieldAttrs(U16, false, "mss_clamp", "tcpi->rx_opt", "", true, false),
      "Task" := FieldAttrs(Char, false, "current_comm", "bpf_get_current_comm", "", false, false),
      "PID" := FieldAttrs(U32, false, "pid", "bpf_get_current_pid_tgid", "", false, false),
      "RcvSpace" := FieldAttrs(U32, false, "space", "tcpi->rcvq_space", "", true, false),
      "RTO" := FieldAttrs(U32, false, "icsk_rto", "icsk", "", false, false)
    ]
  }

  function FieldsModel4(): Model {
    TcpSockFieldsA() + TcpSockFieldsB() + OtherFields()
  }

  /** The two addresses are the only fields that differ for IPv6. */
  function Attrs6(name: string, a: FieldAttrs): FieldAttrs {
    if name == "SAddr" then a.(ctype := U128, cField := "skc_v6_rcv_saddr")
    else if name == "DAddr" then a.(ctype := U128, cField := "skc_v6_daddr")
    else a
  }

  function FieldsModel6(): Model {
    map name | name in FieldsModel4() :: Attrs6(name, FieldsModel4()[name])
  }
}
